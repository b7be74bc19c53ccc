/** Grouping sorted rows into instances with growable sample buffers. */
module Instances {
  import opened PeakToTrough

  datatype Row = Row(id: string, ts: int, val: real)

  /** An instance as it stands in the vector: its samples, in order. */
  datatype Loaded = Loaded(id: string, ts: seq<int>, vals: seq<real>)

  class Instance {
    const id: string
    var timestamps: array<int>
    var values: array<real>
    var n: nat
    var capacity: nat

    ghost predicate Valid()
      reads this
    {
      n <= capacity == timestamps.Length == values.Length
    }

    /** The samples pushed so far. */
    function Contents(): (l: Loaded)
      requires Valid()
      reads this, timestamps, values
    {
      Loaded(id, timestamps[..n], values[..n])
    }

    constructor (id: string)
      ensures Valid() && fresh(timestamps) && fresh(values) && this.id == id
      ensures Contents() == Loaded(id, [], [])
    {
      this.id := id;
      timestamps := new int[0];
      values := new real[0];
      n, capacity := 0, 0;
    }

    /** Append a sample; when the buffers are full, move to buffers of twice the size. */
    method Push(ts: int, val: real)
      requires Valid()
      modifies this, timestamps, values
      ensures Valid()
      ensures fresh(timestamps) || timestamps == old(timestamps)
      ensures fresh(values) || values == old(values)
      ensures Contents() == Loaded(id, old(timestamps[..n]) + [ts], old(values[..n]) + [val])
      ensures capacity == if old(n) < old(capacity) then old(capacity)
                          else if old(capacity) > 0 then 2 * old(capacity) else 64
    {
      if n >= capacity {
        capacity := if capacity > 0 then capacity * 2 else 64;
        timestamps := GrowInts(timestamps, n, capacity);
        values := GrowReals(values, n, capacity);
      }
      timestamps[n] := ts;
      values[n] := val;
      n := n + 1;
    }
  }

  method GrowInts(a: array<int>, n: nat, capacity: nat) returns (b: array<int>)
    requires n <= a.Length && n <= capacity
    ensures fresh(b) && b.Length == capacity && b[..n] == a[..n]
  {
    b := new int[capacity](_ => 0);
    for i := 0 to n
      invariant b[..i] == a[..i]
    {
      b[i] := a[i];
    }
  }

  method GrowReals(a: array<real>, n: nat, capacity: nat) returns (b: array<real>)
    requires n <= a.Length && n <= capacity
    ensures fresh(b) && b.Length == capacity && b[..n] == a[..n]
  {
    b := new real[capacity](_ => 0.0);
    for i := 0 to n
      invariant b[..i] == a[..i]
    {
      b[i] := a[i];
    }
  }

  // ----- Grouping -----

  function Timestamps(rows: seq<Row>): (ts: seq<int>)
    ensures |ts| == |rows| && forall i :: 0 <= i < |rows| ==> ts[i] == rows[i].ts
  {
    seq(|rows|, i requires 0 <= i < |rows| => rows[i].ts)
  }

  function Values(rows: seq<Row>): (vals: seq<real>)
    ensures |vals| == |rows| && forall i :: 0 <= i < |rows| ==> vals[i] == rows[i].val
  {
    seq(|rows|, i requires 0 <= i < |rows| => rows[i].val)
  }

  /** The instance made of these rows. */
  function Bundle(rows: seq<Row>): Loaded
    requires |rows| > 0
  {
    Loaded(rows[0].id, Timestamps(rows), Values(rows))
  }

  /** The query's order: the rows of an instance are contiguous, their timestamps ascending. */
  ghost predicate Sorted(rows: seq<Row>) {
    forall i, j, k :: 0 <= i <= j <= k < |rows| && rows[i].id == rows[k].id ==>
      rows[j].id == rows[i].id && rows[i].ts <= rows[j].ts
  }

  ghost predicate Uniform(rows: seq<Row>, a: nat, b: nat)
    requires a < b <= |rows|
  {
    forall i :: a <= i < b ==> rows[i].id == rows[a].id
  }

  /** cuts[g]..cuts[g + 1] are the rows of instance g, all with its identifier, and the row
      after them has another; together they are the rows before end. */
  ghost predicate Partition(rows: seq<Row>, end: nat, cuts: seq<nat>, instances: seq<Loaded>) {
    && end <= |rows| && |cuts| == |instances| + 1 && cuts[0] == 0 && cuts[|instances|] == end
    && forall g :: 0 <= g < |instances| ==> IsGroup(rows, cuts[g], cuts[g + 1], instances[g])
  }

  ghost predicate IsGroup(rows: seq<Row>, a: nat, b: nat, l: Loaded) {
    a < b <= |rows| && Uniform(rows, a, b) && l == Bundle(rows[a..b])
    && (b < |rows| ==> rows[b].id != rows[a].id)
  }

  lemma PartitionGrows(rows: seq<Row>, a: nat, b: nat, cuts: seq<nat>, instances: seq<Loaded>, l: Loaded)
    requires Partition(rows, a, cuts, instances) && IsGroup(rows, a, b, l)
    ensures Partition(rows, b, cuts + [b], instances + [l])
  {
  }

  lemma BundleGrows(rows: seq<Row>, a: nat, b: nat)
    requires a < b < |rows|
    ensures Bundle(rows[a..b + 1]) ==
            Loaded(rows[a].id, Bundle(rows[a..b]).ts + [rows[b].ts], Bundle(rows[a..b]).vals + [rows[b].val])
  {
    assert Timestamps(rows[a..b + 1]) == Timestamps(rows[a..b]) + [rows[b].ts];
    assert Values(rows[a..b + 1]) == Values(rows[a..b]) + [rows[b].val];
  }

  lemma BundleOfOne(rows: seq<Row>, a: nat)
    requires a < |rows|
    ensures Bundle(rows[a..a + 1]) == Loaded(rows[a].id, [rows[a].ts], [rows[a].val])
  {
    assert Timestamps(rows[a..a + 1]) == [rows[a].ts];
    assert Values(rows[a..a + 1]) == [rows[a].val];
  }

  lemma {:induction false} CutsAscend(rows: seq<Row>, cuts: seq<nat>, instances: seq<Loaded>, g: nat, h: nat)
    requires Partition(rows, |rows|, cuts, instances) && g <= h <= |instances|
    ensures cuts[g] <= cuts[h] && (g < h ==> cuts[g] < cuts[h])
    decreases h - g
  {
    if g < h {
      assert IsGroup(rows, cuts[h - 1], cuts[h], instances[h - 1]);
      CutsAscend(rows, cuts, instances, g, h - 1);
    }
  }

  lemma SortedBetween(rows: seq<Row>, i: nat, j: nat, k: nat)
    requires Sorted(rows) && i <= j <= k < |rows|
    ensures rows[i].id == rows[k].id ==> rows[j].id == rows[i].id
  {
  }

  lemma InstancesDistinct(rows: seq<Row>, cuts: seq<nat>, instances: seq<Loaded>, g: nat, h: nat)
    requires Sorted(rows) && Partition(rows, |rows|, cuts, instances) && g < h < |instances|
    ensures instances[g].id != instances[h].id
  {
    CutsAscend(rows, cuts, instances, g, g + 1);
    CutsAscend(rows, cuts, instances, g + 1, h);
    CutsAscend(rows, cuts, instances, h, h + 1);
    assert IsGroup(rows, cuts[g], cuts[g + 1], instances[g]) && IsGroup(rows, cuts[h], cuts[h + 1], instances[h]);
    SortedBetween(rows, cuts[g], cuts[g + 1], cuts[h]);
  }

  lemma GroupAscends(rows: seq<Row>, a: nat, b: nat, l: Loaded)
    requires Sorted(rows) && IsGroup(rows, a, b, l)
    ensures Ascending(l.ts) && |l.ts| == |l.vals| > 0
  {
    forall i, j | 0 <= i <= j < |l.ts|
      ensures l.ts[i] <= l.ts[j]
    {
      assert rows[a + i].id == rows[a].id && rows[a + j].id == rows[a].id;
      assert l.ts[i] == rows[a..b][i].ts && l.ts[j] == rows[a..b][j].ts;
    }
  }

  /** Stream the rows into instances.  Every row lands in exactly one instance, in order; the
      rows of a sorted result that share an identifier land in the same instance, which then
      is fit for the sliding window. */
  method LoadRows(rows: seq<Row>) returns (instances: seq<Loaded>, ghost cuts: seq<nat>)
    requires Sorted(rows)
    ensures Partition(rows, |rows|, cuts, instances)
    ensures forall g, h :: 0 <= g < h < |instances| ==> instances[g].id != instances[h].id
    ensures forall g :: 0 <= g < |instances| ==>
              Ascending(instances[g].ts) && |instances[g].ts| == |instances[g].vals| > 0
  {
    hide Bundle, Sorted;
    instances, cuts := [], [0];
    ghost var start: nat := 0;
    var cur: Instance? := null;
    for row := 0 to |rows|
      invariant Partition(rows, start, cuts, instances)
      invariant cur == null <==> row == 0
      invariant cur == null ==> start == 0
      invariant cur != null ==>
        && cur.Valid() && fresh(cur) && fresh(cur.timestamps) && fresh(cur.values)
        && start < row && Uniform(rows, start, row) && cur.id == rows[start].id
        && cur.Contents() == Bundle(rows[start..row])
    {
      if cur == null || cur.id != rows[row].id {
        if cur != null {
          PartitionGrows(rows, start, row, cuts, instances, cur.Contents());
          instances := instances + [cur.Contents()];
          cuts := cuts + [row];
        }
        start := row;
        BundleOfOne(rows, row);
        cur := new Instance(rows[row].id);
      } else {
        BundleGrows(rows, start, row);
      }
      cur.Push(rows[row].ts, rows[row].val);
    }
    if cur != null {
      PartitionGrows(rows, start, |rows|, cuts, instances, cur.Contents());
      instances := instances + [cur.Contents()];
      cuts := cuts + [|rows|];
    }
    forall g, h | 0 <= g < h < |instances|
      ensures instances[g].id != instances[h].id
    {
      InstancesDistinct(rows, cuts, instances, g, h);
    }
    forall g | 0 <= g < |instances|
      ensures Ascending(instances[g].ts) && |instances[g].ts| == |instances[g].vals| > 0
    {
      GroupAscends(rows, cuts[g], cuts[g + 1], instances[g]);
    }
  }
}
