/**
 * The item registry of a level: a sparse store from the row-major index of a
 * grid cell to the pill, gold piece or ice cube lying there, with the
 * visibility rule that hides "removed" gold and ice instead of deleting them.
 */
module Game {
  import opened Wrappers

  /** Java's Integer.MAX_VALUE, the starting value of the closest-item scan. */
  const IntMax: int := 0x7fff_ffff

  /** A Java `int`. */
  type Int32 = x: int | -0x8000_0000 <= x <= 0x7fff_ffff

  /** The cell types of a map. */
  datatype CellType = WallCell | SpaceCell | PillCell | GoldCell | IceCell | PortalCell | PacCell

  /** The three item classes: Pill, Gold (a subclass of Pill) and IceCube. */
  datatype ItemKind = Pill | Gold | IceCube

  /** An item with its visibility flag (Actor.isVisible, cleared by hide()). */
  datatype Item = Item(kind: ItemKind, visible: bool)

  /** Item.getType(): the cell type an item stands on when the map is read. */
  function TypeOf(kind: ItemKind): CellType
  {
    match kind
    case Pill => PillCell
    case Gold => GoldCell
    case IceCube => IceCell
  }

  /** `item instanceof Pill`: gold pieces are pills too, ice cubes are not. */
  predicate IsPillInstance(kind: ItemKind)
  {
    kind == Pill || kind == Gold
  }

  /** An item that is not "removed": a pill, or any item still visible. */
  predicate Live(item: Item)
  {
    TypeOf(item.kind) == PillCell || item.visible
  }

  /** The item factory: one fresh, visible item per collectible cell type. */
  function CreateItem(cellType: CellType): (r: Option<Item>)
    ensures r.Some? <==> cellType in {PillCell, GoldCell, IceCell}
    ensures r.Some? ==> TypeOf(r.value.kind) == cellType && r.value.visible
  {
    match cellType
    case PillCell => Some(Item(Pill, true))
    case GoldCell => Some(Item(Gold, true))
    case IceCell => Some(Item(IceCube, true))
    case _ => None
  }

  // ---------------------------------------------------------------------
  // Locations and their row-major indices

  datatype Location = Location(x: int, y: int)

  /** Java's `a / b` for b > 0: the quotient truncated toward zero. */
  function JavaQuot(a: int, b: int): int
    requires b > 0
  {
    if a >= 0 then a / b else -((-a) / b)
  }

  /** Java's `a % b` for b > 0: the remainder takes the sign of `a`. */
  function JavaRem(a: int, b: int): int
    requires b > 0
  {
    if a >= 0 then a % b else -((-a) % b)
  }

  /** getIndexByLocation, for a grid `w` cells wide. */
  function IndexByLocation(w: int, loc: Location): (r: int)
    ensures 0 <= loc.x < w ==> loc.y * w <= r < loc.y * w + w
  {
    loc.y * w + loc.x
  }

  /** getLocationByIndex, for a grid `w` cells wide. */
  function LocationByIndex(w: int, index: int): (r: Location)
    requires w > 0
    ensures index >= 0 ==> 0 <= r.x < w && 0 <= r.y
    ensures index < 0 ==> -w < r.x <= 0 && r.y <= 0
  {
    Location(JavaRem(index, w), JavaQuot(index, w))
  }

  /** A positive multiple of `w` is at least `w`. */
  lemma {:induction false} MulAtLeast(d: int, w: int)
    requires d >= 1 && w > 0
    ensures d * w >= w
  {
    if d > 1 {
      MulAtLeast(d - 1, w);
      assert d * w == (d - 1) * w + w;
    }
  }

  /** Euclidean quotient and remainder are unique. */
  lemma DivModUnique(i: int, w: int, q: int, r: int)
    requires w > 0 && 0 <= r < w && i == q * w + r
    ensures i / w == q && i % w == r
  {
    var q', r' := i / w, i % w;
    assert i == q' * w + r';
    if q' < q {
      assert (q - q') * w == q * w - q' * w;
      MulAtLeast(q - q', w);
    } else if q' > q {
      assert (q' - q) * w == q' * w - q * w;
      MulAtLeast(q' - q, w);
    }
  }

  /** A location on the grid survives the trip through its index. */
  lemma LocationIndexRoundTrip(w: int, loc: Location)
    requires w > 0 && 0 <= loc.x < w && 0 <= loc.y
    ensures LocationByIndex(w, IndexByLocation(w, loc)) == loc
  {
    var i := IndexByLocation(w, loc);
    assert i >= 0 by {
      assert loc.y * w >= 0;
    }
    DivModUnique(i, w, loc.y, loc.x);
  }

  /** Every index, negative ones included, survives the trip through its location. */
  lemma IndexLocationRoundTrip(w: int, i: int)
    requires w > 0
    ensures IndexByLocation(w, LocationByIndex(w, i)) == i
  {
    if i >= 0 {
      assert i == (i / w) * w + i % w;
    } else {
      var n := -i;
      assert n == (n / w) * w + n % w;
      assert JavaQuot(i, w) * w == -((n / w) * w);
    }
  }

  /**
   * A location above the grid (row -1) does not survive the trip, because
   * Java's truncating division maps the negative index into row 0.
   */
  lemma AboveGridDoesNotRoundTrip(w: int, x: int)
    requires 0 < x < w
    ensures LocationByIndex(w, IndexByLocation(w, Location(x, -1))) == Location(x - w, 0)
  {
    var n := w - x;
    assert IndexByLocation(w, Location(x, -1)) == -n;
    DivModUnique(n, w, 0, n);
  }

  // ---------------------------------------------------------------------
  // The store: HashMap<Integer, Item> with its iteration order made explicit

  datatype Entry = Entry(index: int, item: Item)

  /** The entries of the map in iteration order. */
  type Store = seq<Entry>

  /** At most one entry per index, as in any map. */
  ghost predicate UniqueKeys(s: Store)
  {
    forall i, j :: 0 <= i < j < |s| ==> s[i].index != s[j].index
  }

  /** HashMap.get: the item stored under `k`, if any. */
  function Get(s: Store, k: int): (r: Option<Item>)
    ensures r.None? <==> forall i :: 0 <= i < |s| ==> s[i].index != k
    ensures r.Some? ==> Entry(k, r.value) in s
    ensures UniqueKeys(s) ==> forall i :: 0 <= i < |s| && s[i].index == k ==> r == Some(s[i].item)
  {
    if s == [] then None
    else if s[0].index == k then Some(s[0].item)
    else
      var r := Get(s[1..], k);
      assert forall i :: 1 <= i < |s| ==> s[i] == s[1..][i - 1];
      r
  }

  /** HashMap.put: an existing entry is replaced where it stands, a new one goes last. */
  function Put(s: Store, k: int, v: Item): (r: Store)
    ensures Get(r, k) == Some(v)
    ensures forall k' :: k' != k ==> Get(r, k') == Get(s, k')
    ensures forall e :: e in r ==> e in s || e == Entry(k, v)
  {
    if s == [] then [Entry(k, v)]
    else if s[0].index == k then
      var r := [Entry(k, v)] + s[1..];
      assert r[1..] == s[1..];
      assert forall e :: e in r ==> e == r[0] || e in s[1..];
      r
    else
      var p := Put(s[1..], k, v);
      var r := [s[0]] + p;
      assert r[1..] == p;
      assert forall e :: e in r ==> e == s[0] || e in p;
      r
  }

  /** put keeps at most one entry per index. */
  lemma {:induction false} PutKeepsKeysUnique(s: Store, k: int, v: Item)
    requires UniqueKeys(s)
    ensures UniqueKeys(Put(s, k, v))
  {
    var r := Put(s, k, v);
    if s == [] {
    } else if s[0].index == k {
      assert forall i :: 0 <= i < |r| ==> r[i].index == s[i].index;
    } else {
      var p := Put(s[1..], k, v);
      PutKeepsKeysUnique(s[1..], k, v);
      assert forall i :: 1 <= i < |r| ==> r[i] == p[i - 1];
      forall i | 0 <= i < |p|
        ensures p[i].index != s[0].index
      {
        assert p[i] in p;
        if p[i] != Entry(k, v) {
          var j :| 0 <= j < |s[1..]| && s[1..][j] == p[i];
          assert s[j + 1] == p[i];
        }
      }
    }
  }

  /** HashMap.remove: the entry under `k` disappears. */
  function Delete(s: Store, k: int): (r: Store)
    ensures Get(r, k) == None
    ensures forall k' :: k' != k ==> Get(r, k') == Get(s, k')
    ensures forall e :: e in r ==> e in s
    ensures UniqueKeys(s) ==> UniqueKeys(r)
  {
    if s == [] then []
    else if s[0].index == k then Delete(s[1..], k)
    else
      var d := Delete(s[1..], k);
      var r := [s[0]] + d;
      assert r[1..] == d;
      assert forall e :: e in r ==> e == s[0] || e in d;
      assert UniqueKeys(s) ==> forall i :: 0 <= i < |d| ==> d[i] in d && d[i].index != s[0].index;
      r
  }

  /** Item.hide() applied to the item stored under `k`: only its visibility changes. */
  function Hide(s: Store, k: int): (r: Store)
    ensures |r| == |s|
    ensures forall i :: 0 <= i < |s| ==>
      r[i].index == s[i].index && r[i].item.kind == s[i].item.kind &&
      (r[i].item.visible <==> s[i].item.visible && s[i].index != k)
    ensures Get(r, k) == if Get(s, k).Some? then Some(Get(s, k).value.(visible := false)) else None
    ensures forall k' :: k' != k ==> Get(r, k') == Get(s, k')
    ensures UniqueKeys(s) ==> UniqueKeys(r)
  {
    if s == [] then []
    else
      var e := s[0];
      var e' := if e.index == k then Entry(k, e.item.(visible := false)) else e;
      [e'] + Hide(s[1..], k)
  }

  // ---------------------------------------------------------------------
  // Queries and removal on the store

  /** getItem: the item at `loc`, unless it is a hidden gold piece or ice cube. */
  function GetItem(s: Store, w: int, loc: Location): (r: Option<Item>)
    ensures r.Some? ==> Live(r.value) && Entry(IndexByLocation(w, loc), r.value) in s
    ensures UniqueKeys(s) && r.None? ==>
      forall e :: e in s && e.index == IndexByLocation(w, loc) ==> !Live(e.item)
  {
    var item := Get(s, IndexByLocation(w, loc));
    if item.Some? && TypeOf(item.value.kind) != PillCell && !item.value.visible then None
    else item
  }

  /** The store after removeItem: a plain pill is deleted, gold and ice are hidden. */
  function RemoveItemAt(s: Store, w: int, loc: Location): (r: Store)
    ensures GetItem(s, w, loc).None? ==> r == s
    ensures GetItem(s, w, loc).Some? && GetItem(s, w, loc).value.kind == Pill ==>
      Get(r, IndexByLocation(w, loc)) == None
    ensures GetItem(s, w, loc).Some? && GetItem(s, w, loc).value.kind != Pill ==>
      Get(r, IndexByLocation(w, loc)) == Some(GetItem(s, w, loc).value.(visible := false))
    ensures forall k :: k != IndexByLocation(w, loc) ==> Get(r, k) == Get(s, k)
    ensures GetItem(r, w, loc) == None
  {
    var index := IndexByLocation(w, loc);
    match GetItem(s, w, loc)
    case None => s
    case Some(item) =>
      if TypeOf(item.kind) == PillCell then Delete(s, index) else Hide(s, index)
  }

  /** removeItem is idempotent: a second removal at the same location changes nothing. */
  lemma RemoveItemIdempotent(s: Store, w: int, loc: Location)
    ensures RemoveItemAt(RemoveItemAt(s, w, loc), w, loc) == RemoveItemAt(s, w, loc)
  {
  }

  /** Hiding the item under `k` and then deleting `k` is deleting `k`. */
  lemma {:induction false} DeleteAfterHide(s: Store, k: int)
    ensures Delete(Hide(s, k), k) == Delete(s, k)
  {
    if s != [] {
      var h := Hide(s, k);
      assert h[1..] == Hide(s[1..], k);
      DeleteAfterHide(s[1..], k);
    }
  }

  /** countPills: the number of pills and gold pieces, visible or not. */
  function CountPills(s: Store): (n: nat)
    ensures n <= |s|
  {
    if s == [] then 0
    else (if IsPillInstance(s[0].item.kind) then 1 else 0) + CountPills(s[1..])
  }

  /** Hiding an item does not change countPills: hidden gold is still counted. */
  lemma {:induction false} CountPillsHide(s: Store, k: int)
    ensures CountPills(Hide(s, k)) == CountPills(s)
  {
    if s != [] {
      var h := Hide(s, k);
      assert h[1..] == Hide(s[1..], k);
      CountPillsHide(s[1..], k);
    }
  }

  /** Deleting the entry under `k` lowers countPills by that entry's share. */
  lemma {:induction false} CountPillsDelete(s: Store, k: int)
    requires UniqueKeys(s)
    ensures CountPills(Delete(s, k)) ==
      CountPills(s) - if Get(s, k).Some? && IsPillInstance(Get(s, k).value.kind) then 1 else 0
  {
    if s != [] {
      CountPillsDelete(s[1..], k);
      if s[0].index != k {
        var d := Delete(s, k);
        assert d[1..] == Delete(s[1..], k);
      } else {
        assert Get(s[1..], k) == None by {
          forall i | 0 <= i < |s[1..]| ensures s[1..][i].index != k {
            assert s[1..][i] == s[i + 1];
          }
        }
      }
    }
  }

  /** Removing a plain pill lowers countPills by one; removing gold or ice leaves it alone. */
  lemma RemoveItemCountPills(s: Store, w: int, loc: Location)
    requires UniqueKeys(s)
    ensures GetItem(s, w, loc).Some? && GetItem(s, w, loc).value.kind == Pill ==>
      CountPills(RemoveItemAt(s, w, loc)) == CountPills(s) - 1
    ensures GetItem(s, w, loc).None? || GetItem(s, w, loc).value.kind != Pill ==>
      CountPills(RemoveItemAt(s, w, loc)) == CountPills(s)
  {
    var index := IndexByLocation(w, loc);
    match GetItem(s, w, loc)
    case None =>
    case Some(item) =>
      if item.kind == Pill {
        CountPillsDelete(s, index);
      } else {
        CountPillsHide(s, index);
      }
  }

  /** getGoldLocations: the locations of all gold pieces, visible or not, in iteration order. */
  function GoldLocations(s: Store, w: int): (r: seq<Location>)
    requires w > 0
    ensures |r| <= |s|
    ensures forall loc :: loc in r <==>
      exists e :: e in s && e.item.kind == Gold && LocationByIndex(w, e.index) == loc
  {
    if s == [] then []
    else
      var rest := GoldLocations(s[1..], w);
      assert forall e :: e in s <==> e == s[0] || e in s[1..];
      if s[0].item.kind == Gold then [LocationByIndex(w, s[0].index)] + rest else rest
  }

  /** Hiding an item does not change getGoldLocations: hidden gold is still listed. */
  lemma {:induction false} GoldLocationsHide(s: Store, w: int, k: int)
    requires w > 0
    ensures GoldLocations(Hide(s, k), w) == GoldLocations(s, w)
  {
    if s != [] {
      var h := Hide(s, k);
      assert h[1..] == Hide(s[1..], k);
      GoldLocationsHide(s[1..], w, k);
    }
  }

  // ---------------------------------------------------------------------
  // The closest-item scan

  /** The distance from `target` to the item of entry `k`. */
  function DistanceAt(s: Store, w: int, target: Location, dist: (Location, Location) -> Int32, k: int): Int32
    requires w > 0 && 0 <= k < |s|
  {
    dist(target, LocationByIndex(w, s[k].index))
  }

  /** Entry `k` can be chosen: it is not removed and is nearer than Integer.MAX_VALUE. */
  predicate IsCandidate(s: Store, w: int, target: Location, dist: (Location, Location) -> Int32, k: int)
    requires w > 0 && 0 <= k < |s|
  {
    Live(s[k].item) && DistanceAt(s, w, target, dist, k) < IntMax
  }

  /** Entry `k` is a nearest candidate, and every candidate before it is strictly farther. */
  predicate IsFirstClosest(s: Store, w: int, target: Location, dist: (Location, Location) -> Int32, k: int)
    requires w > 0
  {
    && 0 <= k < |s|
    && IsCandidate(s, w, target, dist, k)
    && (forall j :: 0 <= j < k && IsCandidate(s, w, target, dist, j) ==>
          DistanceAt(s, w, target, dist, j) > DistanceAt(s, w, target, dist, k))
    && (forall j :: k < j < |s| && IsCandidate(s, w, target, dist, j) ==>
          DistanceAt(s, w, target, dist, j) >= DistanceAt(s, w, target, dist, k))
  }

  /** The tie-break determines the chosen entry uniquely. */
  lemma FirstClosestUnique(s: Store, w: int, target: Location, dist: (Location, Location) -> Int32, k1: int, k2: int)
    requires w > 0
    requires IsFirstClosest(s, w, target, dist, k1) && IsFirstClosest(s, w, target, dist, k2)
    ensures k1 == k2
  {
  }

  /** Entry `e` holds what the factory made for the `j`-th scanned cell, under that cell's index. */
  predicate MadeFromAt(e: Entry, w: int, itemLocations: seq<(Location, CellType)>, j: int)
    requires 0 <= j < |itemLocations|
  {
    e.index == IndexByLocation(w, itemLocations[j].0) && CreateItem(itemLocations[j].1) == Some(e.item)
  }

  /** Entry `e` holds what the factory made for one of the first `n` scanned cells. */
  ghost predicate MadeFrom(e: Entry, w: int, itemLocations: seq<(Location, CellType)>, n: int)
  {
    exists j :: 0 <= j < n && j < |itemLocations| && MadeFromAt(e, w, itemLocations, j)
  }

  /**
   * The store after drawSetting's scan: each scanned cell whose type yields
   * an item has that item put under the cell's index, in scan order.
   */
  function PutAll(s: Store, w: int, itemLocations: seq<(Location, CellType)>): Store
    decreases |itemLocations|
  {
    if itemLocations == [] then s
    else
      var n := |itemLocations| - 1;
      var prev := PutAll(s, w, itemLocations[..n]);
      match CreateItem(itemLocations[n].1)
      case None => prev
      case Some(item) => Put(prev, IndexByLocation(w, itemLocations[n].0), item)
  }

  /** The `j`-th scanned cell yields an item and is stored under index `k`. */
  predicate PutsAt(w: int, itemLocations: seq<(Location, CellType)>, j: int, k: int)
    requires 0 <= j < |itemLocations|
  {
    CreateItem(itemLocations[j].1).Some? && IndexByLocation(w, itemLocations[j].0) == k
  }

  /** The `j`-th scanned cell is the last one whose item is put under index `k`. */
  predicate LastPutAt(w: int, itemLocations: seq<(Location, CellType)>, j: int, k: int)
    requires 0 <= j < |itemLocations|
  {
    && PutsAt(w, itemLocations, j, k)
    && forall j' :: j < j' < |itemLocations| ==> !PutsAt(w, itemLocations, j', k)
  }

  /** An index no scanned item is put under keeps its old entry. */
  lemma {:induction false} PutAllUntouched(s: Store, w: int, itemLocations: seq<(Location, CellType)>, k: int)
    requires forall j :: 0 <= j < |itemLocations| ==> !PutsAt(w, itemLocations, j, k)
    ensures Get(PutAll(s, w, itemLocations), k) == Get(s, k)
    decreases |itemLocations|
  {
    if itemLocations != [] {
      var n := |itemLocations| - 1;
      var init := itemLocations[..n];
      assert forall j :: 0 <= j < n ==> init[j] == itemLocations[j];
      assert forall j :: 0 <= j < n ==> PutsAt(w, init, j, k) == PutsAt(w, itemLocations, j, k);
      PutAllUntouched(s, w, init, k);
      assert !PutsAt(w, itemLocations, n, k);
    }
  }

  /** The scan is last-write-wins: an index holds the item of the last scanned cell put under it. */
  lemma {:induction false} PutAllLast(s: Store, w: int, itemLocations: seq<(Location, CellType)>, j: int, k: int)
    requires 0 <= j < |itemLocations| && LastPutAt(w, itemLocations, j, k)
    ensures Get(PutAll(s, w, itemLocations), k) == CreateItem(itemLocations[j].1)
    decreases |itemLocations|
  {
    var n := |itemLocations| - 1;
    var init := itemLocations[..n];
    var prev := PutAll(s, w, init);
    var made := CreateItem(itemLocations[n].1);
    var r := PutAll(s, w, itemLocations);
    if j == n {
      assert r == Put(prev, k, made.value);
    } else {
      assert !PutsAt(w, itemLocations, n, k);
      PutAllLastEarlier(w, itemLocations, j, k);
      PutAllLast(s, w, init, j, k);
      assert init[j] == itemLocations[j];
      if made.Some? {
        assert r == Put(prev, IndexByLocation(w, itemLocations[n].0), made.value);
      } else {
        assert r == prev;
      }
    }
  }

  /** A last put before the final scanned cell is also last in the scan without that cell. */
  lemma PutAllLastEarlier(w: int, itemLocations: seq<(Location, CellType)>, j: int, k: int)
    requires 0 <= j < |itemLocations| - 1 && LastPutAt(w, itemLocations, j, k)
    ensures LastPutAt(w, itemLocations[..|itemLocations| - 1], j, k)
  {
    var init := itemLocations[..|itemLocations| - 1];
    assert forall i :: 0 <= i < |init| ==> init[i] == itemLocations[i];
    assert forall i :: 0 <= i < |init| ==> PutsAt(w, init, i, k) == PutsAt(w, itemLocations, i, k);
  }

  /** The scan keeps at most one entry per index. */
  lemma {:induction false} PutAllKeepsKeysUnique(s: Store, w: int, itemLocations: seq<(Location, CellType)>)
    requires UniqueKeys(s)
    ensures UniqueKeys(PutAll(s, w, itemLocations))
    decreases |itemLocations|
  {
    if itemLocations != [] {
      var n := |itemLocations| - 1;
      PutAllKeepsKeysUnique(s, w, itemLocations[..n]);
      var prev := PutAll(s, w, itemLocations[..n]);
      match CreateItem(itemLocations[n].1)
      case None =>
      case Some(item) => PutKeepsKeysUnique(prev, IndexByLocation(w, itemLocations[n].0), item);
    }
  }

  /** Every entry after the scan is an old one or one the factory made for a scanned cell. */
  lemma {:induction false} PutAllOrigin(s: Store, w: int, itemLocations: seq<(Location, CellType)>)
    ensures forall e :: e in PutAll(s, w, itemLocations) ==>
      e in s || MadeFrom(e, w, itemLocations, |itemLocations|)
    decreases |itemLocations|
  {
    if itemLocations != [] {
      var n := |itemLocations| - 1;
      var init := itemLocations[..n];
      PutAllOrigin(s, w, init);
      forall e | e in PutAll(s, w, itemLocations) && e !in s
        ensures MadeFrom(e, w, itemLocations, |itemLocations|)
      {
        if e in PutAll(s, w, init) {
          var j :| 0 <= j < n && j < |init| && MadeFromAt(e, w, init, j);
          assert init[j] == itemLocations[j];
          assert MadeFromAt(e, w, itemLocations, j);
        } else {
          assert MadeFromAt(e, w, itemLocations, n);
        }
      }
    }
  }

  /** Every scanned cell whose type yields an item has an entry under its index afterwards. */
  lemma {:induction false} PutAllCovers(s: Store, w: int, itemLocations: seq<(Location, CellType)>)
    ensures forall j :: 0 <= j < |itemLocations| && CreateItem(itemLocations[j].1).Some? ==>
      Get(PutAll(s, w, itemLocations), IndexByLocation(w, itemLocations[j].0)).Some?
    decreases |itemLocations|
  {
    if itemLocations != [] {
      var n := |itemLocations| - 1;
      var init := itemLocations[..n];
      PutAllCovers(s, w, init);
      assert forall j :: 0 <= j < n ==> init[j] == itemLocations[j];
      var prev := PutAll(s, w, init);
      match CreateItem(itemLocations[n].1)
      case None =>
      case Some(item) =>
        var k := IndexByLocation(w, itemLocations[n].0);
        assert forall k' :: k' != k ==> Get(Put(prev, k, item), k') == Get(prev, k');
    }
  }

  // ---------------------------------------------------------------------
  // The manager object

  class SettingManager {
    /** Level.getNumHorzCells(), the width of the grid. */
    const w: int
    /** The `items` map. */
    var items: Store

    ghost predicate Valid()
      reads this
    {
      w > 0 && UniqueKeys(items)
    }

    constructor (numHorzCells: int)
      requires numHorzCells > 0
      ensures Valid() && w == numHorzCells && items == []
    {
      w := numHorzCells;
      items := [];
    }

    /**
     * The store part of drawSetting: every cell of the map reader's item
     * locations is passed to the factory, and what it creates is put.
     */
    method DrawSetting(itemLocations: seq<(Location, CellType)>)
      requires Valid()
      modifies this
      ensures Valid()
      ensures items == PutAll(old(items), w, itemLocations)
    {
      for n := 0 to |itemLocations|
        invariant Valid()
        invariant items == PutAll(old(items), w, itemLocations[..n])
      {
        assert itemLocations[..n + 1][..n] == itemLocations[..n];
        var (location, cellType) := itemLocations[n];
        var item := CreateItem(cellType);
        if item.Some? {
          PutItem(location, item.value);
        }
      }
      assert itemLocations[..|itemLocations|] == itemLocations;
    }

    /** putItem (store part): the item is stored under the index of its location. */
    method PutItem(location: Location, item: Item)
      requires Valid()
      modifies this
      ensures Valid()
      ensures items == Put(old(items), IndexByLocation(w, location), item)
      ensures GetItem(items, w, location) == if Live(item) then Some(item) else None
    {
      PutKeepsKeysUnique(items, IndexByLocation(w, location), item);
      items := Put(items, IndexByLocation(w, location), item);
    }

    /** removeItem (store part): hide the item, and delete it when it is a plain pill. */
    method RemoveItem(location: Location)
      requires Valid()
      modifies this
      ensures Valid()
      ensures items == RemoveItemAt(old(items), w, location)
    {
      var item := GetItem(items, w, location);
      if item.None? {
        return;
      }
      var index := IndexByLocation(w, location);
      ghost var before := items;
      items := Hide(items, index);
      if TypeOf(item.value.kind) == PillCell {
        items := Delete(items, index);
        DeleteAfterHide(before, index);
      }
    }

    /**
     * closestItemLocation: the location of the first entry, in iteration
     * order, whose item is not removed and whose distance is the least.
     */
    method ClosestItemLocation(target: Location, dist: (Location, Location) -> Int32)
      returns (closest: Option<Location>)
      requires Valid()
      ensures closest.None? <==> forall k :: 0 <= k < |items| ==> !IsCandidate(items, w, target, dist, k)
      ensures closest.Some? ==>
        exists k :: IsFirstClosest(items, w, target, dist, k) && closest.value == LocationByIndex(w, items[k].index)
    {
      var currentMinDistance: int := IntMax;
      closest := None;
      ghost var best := -1;
      for i := 0 to |items|
        invariant closest.None? <==> forall k :: 0 <= k < i ==> !IsCandidate(items, w, target, dist, k)
        invariant closest.None? ==> currentMinDistance == IntMax
        invariant closest.Some? ==>
          && 0 <= best < i
          && IsCandidate(items, w, target, dist, best)
          && closest.value == LocationByIndex(w, items[best].index)
          && currentMinDistance == DistanceAt(items, w, target, dist, best)
          && (forall j :: 0 <= j < best && IsCandidate(items, w, target, dist, j) ==>
                DistanceAt(items, w, target, dist, j) > currentMinDistance)
          && (forall j :: best < j < i && IsCandidate(items, w, target, dist, j) ==>
                DistanceAt(items, w, target, dist, j) >= currentMinDistance)
      {
        var entry := items[i];
        var item := entry.item;
        if TypeOf(item.kind) != PillCell && !item.visible {
          continue;
        }
        var itemLocation := LocationByIndex(w, entry.index);
        var distanceToItem := dist(target, itemLocation);
        assert distanceToItem == DistanceAt(items, w, target, dist, i);
        if distanceToItem < currentMinDistance {
          assert IsCandidate(items, w, target, dist, i);
          closest := Some(itemLocation);
          currentMinDistance := distanceToItem;
          best := i;
        }
      }
      if closest.Some? {
        assert IsFirstClosest(items, w, target, dist, best);
      }
    }
  }
}
