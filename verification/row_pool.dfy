/** The virtualised result list: a fixed set of 20 row widgets
    (`PrefabItems`), a queue of pooled rows (`PrefabItemPool`), and the
    scroll handler `UpdateItemPrefabPool` that recycles rows leaving the
    visible window and hands pooled rows to visible indices that have none.

    Geometry is integral: rows are 20 units high, and the scroll offset and
    viewport height are integers. `PrefabItem` is not modelled; its `Pool()` is
    assumed to clear the row's index and deactivate it. */
module RowPool {
  import opened Wrappers
  import opened Seqs
  import opened CatalogFilter

  const PoolSize: nat := 20
  const RowHeight: int := 20

  /** One row widget. `posIndex` is `None` while the row is pooled. */
  datatype Row = Row(posIndex: Option<nat>, y: int, name: string, toggleOn: bool, favouriteOn: bool, active: bool)

  /** The rows, and the queue of pooled rows (front first) by row number. */
  datatype Pool = Pool(rows: seq<Row>, free: seq<nat>)

  /** Vertical position of the row showing result `i` (its centre). */
  function RowY(i: nat): int {
    0 - i * RowHeight - RowHeight / 2
  }

  /** The shape every pool has: 20 rows, queue entries naming rows. */
  predicate Shaped(p: Pool) {
    |p.rows| == PoolSize && forall j | 0 <= j < |p.free| :: p.free[j] < PoolSize
  }

  predicate Live(p: Pool, k: nat)
    requires k < |p.rows|
  {
    p.rows[k].posIndex.Some?
  }

  /** The pool invariant: each row is queued at most once, a row is queued
      exactly when it holds no index, live rows are active and placed at
      their index, and no two live rows hold the same index. */
  ghost predicate Valid(p: Pool) {
    && Shaped(p)
    && Distinct(p.free)
    && (forall k | 0 <= k < |p.rows| :: k in p.free <==> p.rows[k].posIndex.None?)
    && (forall k | 0 <= k < |p.rows| :: p.rows[k].active <==> p.rows[k].posIndex.Some?)
    && (forall k | 0 <= k < |p.rows| && p.rows[k].posIndex.Some? ::
          p.rows[k].y == RowY(p.rows[k].posIndex.value))
    && (forall k, l | 0 <= k < l < |p.rows| && p.rows[k].posIndex.Some? ::
          p.rows[k].posIndex != p.rows[l].posIndex)
  }

  /** Some live row shows result `i`. */
  predicate Holds(p: Pool, i: nat) {
    exists k | 0 <= k < |p.rows| :: p.rows[k].posIndex == Some(i)
  }

  function Pooled(row: Row): Row {
    row.(posIndex := None, active := false)
  }

  /** The pool as the menu creates it: every row instantiated, pooled and
      queued in row order. */
  function InitialPool(): (p: Pool)
    ensures Shaped(p) && |p.free| == PoolSize
    ensures forall k | 0 <= k < PoolSize :: !Live(p, k) && p.free[k] == k
  {
    Pool(seq(PoolSize, k => Row(None, 0, "", false, false, false)), seq(PoolSize, k requires 0 <= k => k as nat))
  }

  lemma InitialPoolValid()
    ensures Valid(InitialPool())
  {
    var p := InitialPool();
    forall k | 0 <= k < PoolSize
      ensures k in p.free
    {
      assert p.free[k] == k;
    }
  }

  /** `PoolPrefabItem`: pool the row and enqueue it (unconditionally; callers
      check that the row is not already queued). */
  function PoolRow(p: Pool, k: nat): (r: Pool)
    requires Shaped(p) && k < PoolSize
    ensures Shaped(r)
    ensures r.free == p.free + [k]
    ensures r.rows[k] == Pooled(p.rows[k])
    ensures forall j | 0 <= j < PoolSize && j != k :: r.rows[j] == p.rows[j]
  {
    Pool(p.rows[k := Pooled(p.rows[k])], p.free + [k])
  }

  /** Which live rows a sweep returns to the pool: all of them
      (`PoolAllPrefabItems`), or those outside the visible band
      (`UpdateItemPrefabPool`). */
  datatype SweepRule = Everything | OutsideWindow(scrollY: int, height: int)

  /** The visible band with one row of margin on each side: a row whose
      position lies above `-scrollY + 20` or below `-scrollY - height - 20`
      has left it. */
  predicate OutsideBand(y: int, scrollY: int, height: int) {
    y > -scrollY + RowHeight || y < -scrollY - height - RowHeight
  }

  predicate Drops(rule: SweepRule, row: Row) {
    match rule
    case Everything => true
    case OutsideWindow(scrollY, height) => OutsideBand(row.y, scrollY, height)
  }

  /** The row loop shared by `PoolAllPrefabItems` and the first half of
      `UpdateItemPrefabPool`: from row `k` on, every row that is not queued
      and that the rule drops is pooled, in row order. */
  function Sweep(p: Pool, drop: SweepRule, k: nat): (r: Pool)
    requires Shaped(p) && k <= PoolSize
    ensures Shaped(r)
    ensures forall j | 0 <= j < PoolSize ::
      r.rows[j] == if k <= j && j !in p.free && Drops(drop, p.rows[j]) then Pooled(p.rows[j]) else p.rows[j]
    ensures forall j | 0 <= j < PoolSize :: j in r.free <==> j in p.free || (k <= j && Drops(drop, p.rows[j]))
    ensures |p.free| <= |r.free| && r.free[..|p.free|] == p.free
    ensures Distinct(p.free) ==> Distinct(r.free)
    decreases PoolSize - k
  {
    if k == PoolSize then p
    else if k in p.free then Sweep(p, drop, k + 1)
    else if Drops(drop, p.rows[k]) then Sweep(PoolRow(p, k), drop, k + 1)
    else Sweep(p, drop, k + 1)
  }

  lemma SweepValid(p: Pool, drop: SweepRule)
    requires Valid(p)
    ensures Valid(Sweep(p, drop, 0))
  {
    var r := Sweep(p, drop, 0);
    forall k, l | 0 <= k < l < |r.rows| && r.rows[k].posIndex.Some?
      ensures r.rows[k].posIndex != r.rows[l].posIndex
    {
      assert r.rows[k] == p.rows[k];
    }
  }

  /** `PoolAllPrefabItems`: afterwards every row is queued, rows that were
      not queued are pooled, and no row is queued twice. */
  function PoolAll(p: Pool): (r: Pool)
    requires Shaped(p)
    ensures Shaped(r)
    ensures forall k | 0 <= k < PoolSize :: k in r.free
    ensures forall k | 0 <= k < PoolSize :: r.rows[k] == if k in p.free then p.rows[k] else Pooled(p.rows[k])
    ensures Distinct(p.free) ==> Distinct(r.free)
  {
    Sweep(p, Everything, 0)
  }

  /** On a consistent pool, pooling everything leaves no live row. */
  lemma PoolAllValid(p: Pool)
    requires Valid(p)
    ensures Valid(PoolAll(p))
    ensures forall k | 0 <= k < PoolSize :: !Live(PoolAll(p), k)
  {
    SweepValid(p, Everything);
  }

  /** Hand the front row of the queue to result `i`. */
  function Place(p: Pool, i: nat, name: string, favourite: bool, selected: bool): (r: Pool)
    requires Shaped(p) && |p.free| > 0
    ensures Shaped(r)
    ensures r.free == p.free[1..]
    ensures r.rows[p.free[0]] == Row(Some(i), RowY(i), name, selected, favourite, true)
    ensures forall j | 0 <= j < PoolSize && j != p.free[0] :: r.rows[j] == p.rows[j]
  {
    var k := p.free[0];
    Pool(p.rows[k := Row(Some(i), RowY(i), name, selected, favourite, true)], p.free[1..])
  }

  /** Placing result `i`, which no row shows yet, keeps the pool consistent,
      keeps every shown result shown, and only uses up queued rows. */
  lemma PlaceValid(p: Pool, i: nat, name: string, favourite: bool, selected: bool)
    requires Valid(p) && |p.free| > 0 && !Holds(p, i)
    ensures var q := Place(p, i, name, favourite, selected);
      && Valid(q)
      && Holds(q, i)
      && (forall j: nat | Holds(p, j) :: Holds(q, j))
      && (forall k | 0 <= k < PoolSize && k in q.free :: k in p.free)
  {
    var q := Place(p, i, name, favourite, selected);
    var f := p.free[0];
    assert q.rows[f].posIndex == Some(i);
    forall j: nat | Holds(p, j)
      ensures Holds(q, j)
    {
      var k :| 0 <= k < |p.rows| && p.rows[k].posIndex == Some(j);
      assert k != f;
      assert q.rows[k].posIndex == Some(j);
    }
    forall k | 0 <= k < PoolSize && k in q.free
      ensures k in p.free
    {
      var a :| 0 <= a < |q.free| && q.free[a] == k;
      assert p.free[a + 1] == k;
    }
    forall k | 0 <= k < |q.rows|
      ensures k in q.free <==> q.rows[k].posIndex.None?
    {
      if k == f {
        assert k !in q.free by {
          forall a | 0 <= a < |q.free| ensures q.free[a] != f { assert q.free[a] == p.free[a + 1]; }
        }
      } else if k in p.free {
        var a :| 0 <= a < |p.free| && p.free[a] == k;
        assert q.free[a - 1] == k;
      }
    }
    forall k, l | 0 <= k < l < |q.rows| && q.rows[k].posIndex.Some?
      ensures q.rows[k].posIndex != q.rows[l].posIndex
    {
      if k == f {
        assert !(exists m | 0 <= m < |p.rows| :: p.rows[m].posIndex == Some(i));
      }
    }
  }

  /** The row a result gets when it is placed. */
  function Shown(i: nat, items: seq<string>, states: States, selected: Option<string>): Row
    requires i < |items| && items[i] in states
  {
    Row(Some(i), RowY(i), items[i], selected == Some(items[i]), states[items[i]].isFavourite, true)
  }

  predicate ItemsHaveStates(items: seq<string>, states: States) {
    forall n | 0 <= n < |items| :: items[n] in states
  }

  /** The index loop of `UpdateItemPrefabPool` over results `i .. end-1`: a
      result with no row gets the front row of the queue, while the queue
      lasts. */
  function Assign(p: Pool, items: seq<string>, states: States, selected: Option<string>, i: nat, end: int): (r: Pool)
    requires Valid(p) && ItemsHaveStates(items, states) && end <= |items|
    ensures Valid(r)
    decreases end - i
  {
    if i >= end then p
    else if Holds(p, i) then Assign(p, items, states, selected, i + 1, end)
    else if |p.free| > 0 then
      var n := items[i];
      PlaceValid(p, i, n, states[n].isFavourite, selected == Some(n));
      Assign(Place(p, i, n, states[n].isFavourite, selected == Some(n)), items, states, selected, i + 1, end)
    else Assign(p, items, states, selected, i + 1, end)
  }

  /** The index loop only consumes rows from the front of the queue. */
  lemma {:induction false} AssignConsumesQueueFront(p: Pool, items: seq<string>, states: States, selected: Option<string>, i: nat, end: int)
    requires Valid(p) && ItemsHaveStates(items, states) && end <= |items|
    ensures var r := Assign(p, items, states, selected, i, end);
      |r.free| <= |p.free| && r.free == p.free[|p.free| - |r.free|..]
    decreases end - i
  {
    if i < end {
      if Holds(p, i) || |p.free| == 0 {
        AssignConsumesQueueFront(p, items, states, selected, i + 1, end);
      } else {
        var n := items[i];
        PlaceValid(p, i, n, states[n].isFavourite, selected == Some(n));
        var q := Place(p, i, n, states[n].isFavourite, selected == Some(n));
        AssignConsumesQueueFront(q, items, states, selected, i + 1, end);
        var r := Assign(q, items, states, selected, i + 1, end);
        assert Assign(p, items, states, selected, i, end) == r;
        assert q.free[|q.free| - |r.free|..] == p.free[|p.free| - |r.free|..];
      }
    }
  }

  /** A result that some row shows is still shown after the index loop. */
  lemma {:induction false} AssignKeepsShown(p: Pool, items: seq<string>, states: States, selected: Option<string>, i: nat, end: int, j: nat)
    requires Valid(p) && ItemsHaveStates(items, states) && end <= |items|
    requires Holds(p, j)
    ensures Holds(Assign(p, items, states, selected, i, end), j)
    decreases end - i
  {
    if i < end {
      if Holds(p, i) || |p.free| == 0 {
        AssignKeepsShown(p, items, states, selected, i + 1, end, j);
      } else {
        var n := items[i];
        PlaceValid(p, i, n, states[n].isFavourite, selected == Some(n));
        var q := Place(p, i, n, states[n].isFavourite, selected == Some(n));
        AssignKeepsShown(q, items, states, selected, i + 1, end, j);
      }
    }
  }

  /** Unless the queue runs dry, every result in the range ends up shown. */
  lemma {:induction false} AssignCoversRange(p: Pool, items: seq<string>, states: States, selected: Option<string>, i: nat, end: int, j: nat)
    requires Valid(p) && ItemsHaveStates(items, states) && end <= |items|
    requires i <= j < end
    ensures var r := Assign(p, items, states, selected, i, end);
      |r.free| > 0 ==> Holds(r, j)
    decreases end - i
  {
    var r := Assign(p, items, states, selected, i, end);
    if Holds(p, i) {
      if j == i {
        AssignKeepsShown(p, items, states, selected, i + 1, end, j);
      } else {
        AssignCoversRange(p, items, states, selected, i + 1, end, j);
      }
    } else if |p.free| == 0 {
      AssignConsumesQueueFront(p, items, states, selected, i + 1, end);
    } else {
      var n := items[i];
      PlaceValid(p, i, n, states[n].isFavourite, selected == Some(n));
      var q := Place(p, i, n, states[n].isFavourite, selected == Some(n));
      if j == i {
        AssignKeepsShown(q, items, states, selected, i + 1, end, j);
      } else {
        AssignCoversRange(q, items, states, selected, i + 1, end, j);
      }
    }
  }

  /** The index loop changes only queued rows, each into the row of a result
      in the range that no row showed before. */
  lemma {:induction false} AssignChangesOnlyQueuedRows(p: Pool, items: seq<string>, states: States, selected: Option<string>, i: nat, end: int, k: nat)
    requires Valid(p) && ItemsHaveStates(items, states) && end <= |items|
    requires k < PoolSize
    ensures var r := Assign(p, items, states, selected, i, end);
      || r.rows[k] == p.rows[k]
      || (&& k in p.free
          && exists j: nat | i <= j < end :: !Holds(p, j) && r.rows[k] == Shown(j, items, states, selected))
    decreases end - i
  {
    var r := Assign(p, items, states, selected, i, end);
    if i >= end {
    } else if Holds(p, i) || |p.free| == 0 {
      AssignChangesOnlyQueuedRows(p, items, states, selected, i + 1, end, k);
    } else {
      var n := items[i];
      PlaceValid(p, i, n, states[n].isFavourite, selected == Some(n));
      var q := Place(p, i, n, states[n].isFavourite, selected == Some(n));
      AssignChangesOnlyQueuedRows(q, items, states, selected, i + 1, end, k);
      if r.rows[k] != p.rows[k] {
        if r.rows[k] == q.rows[k] {
          assert k == p.free[0];
          assert r.rows[k] == Shown(i, items, states, selected);
        } else {
          var j: nat :| i + 1 <= j < end && !Holds(q, j) && r.rows[k] == Shown(j, items, states, selected);
        }
      }
    }
  }

  /** `Mathf.CeilToInt(a / b)` for integers and a positive divisor. */
  function CeilDiv(a: int, b: int): (c: int)
    requires b > 0
    ensures (c - 1) * b < a <= c * b
  {
    -((-a) / b)
  }

  /** First result index of the window: `max(0, ceil((scrollY - 20) / 20))`. */
  function StartIndex(scrollY: int): nat {
    var c := CeilDiv(scrollY - RowHeight, RowHeight);
    if c < 0 then 0 else c
  }

  /** Number of results the window may show: `ceil((height + 40) / 20)`. */
  function MaxItems(height: int): int {
    CeilDiv(height + 2 * RowHeight, RowHeight)
  }

  /** One past the last result index of the window. */
  function WindowEnd(scrollY: int, height: int, count: nat): (e: int)
    ensures e <= count
  {
    var e := StartIndex(scrollY) + MaxItems(height);
    if e < count then e else count
  }

  /** The window starts at the first result whose row top edge, `20 * n`
      below the list top, is at least one row above the scrolled-off part,
      and it spans the fewest rows covering the viewport plus two rows of
      margin. */
  lemma WindowBounds(scrollY: int, height: int)
    ensures forall n: nat :: n >= StartIndex(scrollY) <==> n * RowHeight >= scrollY - RowHeight
    ensures forall m: int :: m >= MaxItems(height) <==> m * RowHeight >= height + 2 * RowHeight
  {
    var c := CeilDiv(scrollY - RowHeight, RowHeight);
    forall n: nat
      ensures n >= StartIndex(scrollY) <==> n * RowHeight >= scrollY - RowHeight
    {
      if n >= c {
        assert n * RowHeight >= c * RowHeight;
      } else {
        assert n * RowHeight <= (c - 1) * RowHeight;
      }
    }
    var d := MaxItems(height);
    forall m: int
      ensures m >= d <==> m * RowHeight >= height + 2 * RowHeight
    {
      if m >= d {
        assert m * RowHeight >= d * RowHeight;
      } else {
        assert m * RowHeight <= (d - 1) * RowHeight;
      }
    }
  }

  /** `UpdateItemPrefabPool`: pool every live row that has left the visible
      band, then give each result of the window that no row shows the front
      row of the queue, while the queue lasts. */
  function UpdateItemPrefabPool(p: Pool, items: seq<string>, states: States, selected: Option<string>, scrollY: int, height: int): (r: Pool)
    requires Valid(p) && ItemsHaveStates(items, states)
    ensures Valid(r)
  {
    var q := Sweep(p, OutsideWindow(scrollY, height), 0);
    SweepValid(p, OutsideWindow(scrollY, height));
    Assign(q, items, states, selected, StartIndex(scrollY), WindowEnd(scrollY, height, |items|))
  }

  /** After a scroll, every live row is either a row that stayed inside the
      visible band untouched, or a row newly given to a window result that no
      surviving row showed; every row that stayed inside the band keeps its
      result; and unless the queue ran dry, every window result is shown. */
  lemma UpdateEffect(p: Pool, items: seq<string>, states: States, selected: Option<string>, scrollY: int, height: int)
    requires Valid(p) && ItemsHaveStates(items, states)
    ensures var r := UpdateItemPrefabPool(p, items, states, selected, scrollY, height);
      var start, end := StartIndex(scrollY), WindowEnd(scrollY, height, |items|);
      && (forall k | 0 <= k < PoolSize && Live(r, k) ::
            || (r.rows[k] == p.rows[k] && !OutsideBand(p.rows[k].y, scrollY, height))
            || (exists j: nat | start <= j < end :: r.rows[k] == Shown(j, items, states, selected)))
      && (forall k | 0 <= k < PoolSize && Live(p, k) && !OutsideBand(p.rows[k].y, scrollY, height) ::
            r.rows[k] == p.rows[k])
      && (|r.free| > 0 ==> forall j: nat | start <= j < end :: Holds(r, j))
      && (forall k | 0 <= k < PoolSize ::
            || r.rows[k] == p.rows[k]
            || r.rows[k] == Pooled(p.rows[k])
            || (exists j: nat | start <= j < end :: r.rows[k] == Shown(j, items, states, selected)))
  {
    var rule := OutsideWindow(scrollY, height);
    var q := Sweep(p, rule, 0);
    SweepValid(p, rule);
    var start, end := StartIndex(scrollY), WindowEnd(scrollY, height, |items|);
    var r := UpdateItemPrefabPool(p, items, states, selected, scrollY, height);
    assert r == Assign(q, items, states, selected, start, end);
    forall k | 0 <= k < PoolSize
      ensures Live(r, k) ==>
            || (r.rows[k] == p.rows[k] && !OutsideBand(p.rows[k].y, scrollY, height))
            || (exists j: nat | start <= j < end :: r.rows[k] == Shown(j, items, states, selected))
      ensures Live(p, k) && !OutsideBand(p.rows[k].y, scrollY, height) ==> r.rows[k] == p.rows[k]
      ensures || r.rows[k] == p.rows[k]
              || r.rows[k] == Pooled(p.rows[k])
              || (exists j: nat | start <= j < end :: r.rows[k] == Shown(j, items, states, selected))
    {
      AssignChangesOnlyQueuedRows(q, items, states, selected, start, end, k);
    }
    forall j: nat | start <= j < end
      ensures |r.free| > 0 ==> Holds(r, j)
    {
      AssignCoversRange(q, items, states, selected, start, end, j);
    }
  }

  /** Laying out a window from a pool with no live rows and no toggle on,
      with nothing selected: no toggle comes on, and every live row shows the
      window result it is placed at. */
  lemma UpdateFromPooled(p: Pool, items: seq<string>, states: States, scrollY: int, height: int)
    requires Valid(p) && ItemsHaveStates(items, states)
    requires forall k | 0 <= k < PoolSize :: !Live(p, k) && !p.rows[k].toggleOn
    ensures var r := UpdateItemPrefabPool(p, items, states, None, scrollY, height);
      var start, end := StartIndex(scrollY), WindowEnd(scrollY, height, |items|);
      && (forall k | 0 <= k < PoolSize :: !r.rows[k].toggleOn)
      && (forall k | 0 <= k < PoolSize && Live(r, k) ::
            exists j: nat | start <= j < end :: r.rows[k] == Shown(j, items, states, None))
      && (|r.free| > 0 ==> forall j: nat | start <= j < end :: Holds(r, j))
  {
    var r := UpdateItemPrefabPool(p, items, states, None, scrollY, height);
    var start, end := StartIndex(scrollY), WindowEnd(scrollY, height, |items|);
    UpdateEffect(p, items, states, None, scrollY, height);
    forall k | 0 <= k < PoolSize
      ensures !r.rows[k].toggleOn
      ensures Live(r, k) ==> exists j: nat | start <= j < end :: r.rows[k] == Shown(j, items, states, None)
    {
      if r.rows[k] != p.rows[k] && r.rows[k] != Pooled(p.rows[k]) {
        var j: nat :| start <= j < end && r.rows[k] == Shown(j, items, states, None);
      }
    }
  }

  /** Pooling every row of a consistent pool with no toggle on, then laying
      out a window with nothing selected: the same outcome as above. */
  lemma RelayoutFromScratch(p: Pool, items: seq<string>, states: States, scrollY: int, height: int)
    requires Valid(p) && ItemsHaveStates(items, states)
    requires forall k | 0 <= k < PoolSize :: !p.rows[k].toggleOn
    ensures Valid(PoolAll(p))
    ensures var r := UpdateItemPrefabPool(PoolAll(p), items, states, None, scrollY, height);
      var start, end := StartIndex(scrollY), WindowEnd(scrollY, height, |items|);
      && (forall k | 0 <= k < PoolSize :: !r.rows[k].toggleOn)
      && (forall k | 0 <= k < PoolSize && Live(r, k) ::
            exists j: nat | start <= j < end :: r.rows[k] == Shown(j, items, states, None))
      && (|r.free| > 0 ==> forall j: nat | start <= j < end :: Holds(r, j))
  {
    PoolAllValid(p);
    var q := PoolAll(p);
    assert forall k | 0 <= k < PoolSize :: !q.rows[k].toggleOn;
    UpdateFromPooled(q, items, states, scrollY, height);
  }
}
