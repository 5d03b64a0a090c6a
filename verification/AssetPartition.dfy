/** Cutting the ordered asset list into release parts of a target size. */
module AssetPartition {

  datatype Asset = Asset(relpath: string, size: nat)

  function Size(part: seq<Asset>): nat {
    if |part| == 0 then 0 else Size(part[..|part| - 1]) + part[|part| - 1].size
  }

  function Flatten(parts: seq<seq<Asset>>): seq<Asset> {
    if |parts| == 0 then [] else Flatten(parts[..|parts| - 1]) + parts[|parts| - 1]
  }

  /** A part holds something, and is within the target unless it is one asset alone. */
  ghost predicate Fits(part: seq<Asset>, target: int) {
    |part| > 0 && (Size(part) <= target || |part| == 1)
  }

  ghost predicate Partitions(parts: seq<seq<Asset>>, rows: seq<Asset>, target: int) {
    Flatten(parts) == rows && forall i :: 0 <= i < |parts| ==> Fits(parts[i], target)
  }

  /** Every way of cutting the rows needs at least n parts. */
  ghost predicate Needs(rows: seq<Asset>, target: int, n: nat) {
    forall parts :: Partitions(parts, rows, target) ==> |parts| >= n
  }

  lemma {:induction false} SizeSuffix(a: seq<Asset>, b: seq<Asset>)
    ensures Size(a + b) == Size(a) + Size(b)
  {
    if |b| == 0 {
      assert a + b == a;
    } else {
      assert (a + b)[..|a + b| - 1] == a + b[..|b| - 1];
      SizeSuffix(a, b[..|b| - 1]);
    }
  }

  /** Dropping the last row from a partition leaves one with no more parts. */
  lemma Truncate(parts: seq<seq<Asset>>, rows: seq<Asset>, target: int) returns (shorter: seq<seq<Asset>>)
    requires Partitions(parts, rows, target) && |rows| > 0
    ensures Partitions(shorter, rows[..|rows| - 1], target) && |shorter| <= |parts|
  {
    var init, last := parts[..|parts| - 1], parts[|parts| - 1];
    assert rows == Flatten(init) + last;
    if |last| == 1 {
      shorter := init;
    } else {
      shorter := init + [last[..|last| - 1]];
      assert shorter[..|shorter| - 1] == init;
      SizeSuffix(last[..|last| - 1], [last[|last| - 1]]);
      assert last[..|last| - 1] + [last[|last| - 1]] == last;
    }
    assert Flatten(shorter) == rows[..|rows| - 1];
  }

  lemma NeedsMore(rows: seq<Asset>, target: int, n: nat, row: Asset)
    requires Needs(rows, target, n)
    ensures Needs(rows + [row], target, n)
  {
    forall parts | Partitions(parts, rows + [row], target) ensures |parts| >= n {
      var shorter := Truncate(parts, rows + [row], target);
      assert (rows + [row])[..|rows|] == rows;
    }
  }

  /** A partition is a partition of the rows before k and one part from k on. */
  lemma LastPart(parts: seq<seq<Asset>>, rows: seq<Asset>, target: int) returns (k: nat)
    requires Partitions(parts, rows, target) && |rows| > 0
    ensures |parts| > 0 && k <= |rows| && Fits(rows[k..], target)
    ensures Partitions(parts[..|parts| - 1], rows[..k], target)
  {
    var init, last := parts[..|parts| - 1], parts[|parts| - 1];
    assert rows == Flatten(init) + last;
    k := |Flatten(init)|;
    assert rows[..k] == Flatten(init) && rows[k..] == last;
  }

  lemma SizeOne(row: Asset)
    ensures Size([row]) == row.size
  {
    assert [row][..0] == [];
  }

  lemma TooLarge(before: seq<Asset>, current: seq<Asset>, row: Asset, target: int)
    requires Size(current) + row.size > target
    ensures Size(before + current + [row]) > target
  {
    SizeSuffix(before + current, [row]);
    SizeSuffix(before, current);
    SizeOne(row);
  }

  lemma LastPartShort(rows: seq<Asset>, start: nat, row: Asset, target: int, k: nat)
    requires start < |rows| && Size(rows[start..]) + row.size > target
    requires k <= |rows| + 1 && Fits((rows + [row])[k..], target)
    ensures start < k <= |rows|
  {
    if k <= start {
      assert (rows + [row])[k..] == rows[k..start] + rows[start..] + [row];
      TooLarge(rows[k..start], rows[start..], row, target);
    }
  }

  /** Where every cut that ends after `start` already costs n, and the rows from there on
      cannot take one more row together, that row costs one part more. */
  lemma NeedsOneMore(rows: seq<Asset>, start: nat, row: Asset, target: int, n: nat)
    requires start < |rows| && Size(rows[start..]) + row.size > target
    requires forall k :: start < k <= |rows| ==> Needs(rows[..k], target, n)
    ensures Needs(rows + [row], target, n + 1)
  {
    var all := rows + [row];
    forall parts | Partitions(parts, all, target) ensures |parts| >= n + 1 {
      var k := LastPart(parts, all, target);
      LastPartShort(rows, start, row, target, k);
      assert all[..k] == rows[..k];
    }
  }

  /** The parts once an open part, if any, is closed. */
  function Closed(parts: seq<seq<Asset>>, current: seq<Asset>): seq<seq<Asset>> {
    if current == [] then parts else parts + [current]
  }

  datatype Cut = Cut(parts: seq<seq<Asset>>, current: seq<Asset>)

  /** The rows so far are cut into `parts` and an open part, and no cut that reaches
      into the open part does with fewer parts. */
  ghost predicate Greedy(c: Cut, rows: seq<Asset>, target: int) {
    && Partitions(Closed(c.parts, c.current), rows, target)
    && |c.current| <= |rows| && rows[|rows| - |c.current|..] == c.current
    && (c.current == [] ==> rows == [] && c.parts == [])
    && forall k :: |rows| - |c.current| < k <= |rows| ==> Needs(rows[..k], target, |c.parts| + 1)
  }

  lemma FlattenMore(parts: seq<seq<Asset>>, part: seq<Asset>)
    ensures Flatten(parts + [part]) == Flatten(parts) + part
  {
    assert (parts + [part])[..|parts|] == parts;
  }

  lemma FitsEach(parts: seq<seq<Asset>>, part: seq<Asset>, rows: seq<Asset>, target: int)
    requires Partitions(parts + [part], rows, target)
    ensures Fits(part, target) && forall i :: 0 <= i < |parts| ==> Fits(parts[i], target)
  {
    var all := parts + [part];
    assert part == all[|parts|];
    forall i | 0 <= i < |parts| ensures Fits(parts[i], target) {
      assert parts[i] == all[i];
    }
  }

  /** A row that does not fit closes the open part. */
  lemma CloseKeeps(c: Cut, rows: seq<Asset>, row: Asset, target: int)
    requires Greedy(c, rows, target) && c.current != [] && Size(c.current) + row.size > target
    ensures Greedy(Cut(c.parts + [c.current], [row]), rows + [row], target)
  {
    FlattenMore(c.parts + [c.current], [row]);
    NeedsOneMore(rows, |rows| - |c.current|, row, target, |c.parts| + 1);
    assert (rows + [row])[..|rows| + 1] == rows + [row];
  }

  lemma NeedsSome(rows: seq<Asset>, target: int)
    requires rows != []
    ensures Needs(rows, target, 1)
  {
    forall parts | Partitions(parts, rows, target) ensures |parts| >= 1 {
      assert |Flatten(parts)| > 0;
    }
  }

  lemma StillNeeds(rows: seq<Asset>, start: nat, row: Asset, target: int, n: nat)
    requires start <= |rows| && (start == |rows| ==> rows == [] && n == 1)
    requires forall k :: start < k <= |rows| ==> Needs(rows[..k], target, n)
    ensures forall k :: start < k <= |rows| + 1 ==> Needs((rows + [row])[..k], target, n)
  {
    var all := rows + [row];
    forall k | start < k <= |rows| + 1 ensures Needs(all[..k], target, n) {
      if k <= |rows| {
        assert all[..k] == rows[..k];
      } else {
        assert all[..k] == all && rows[..|rows|] == rows;
        if rows != [] {
          NeedsMore(rows, target, n, row);
        } else {
          NeedsSome(all, target);
        }
      }
    }
  }

  /** A row that fits joins the open part. */
  lemma ExtendKeeps(c: Cut, rows: seq<Asset>, row: Asset, target: int)
    requires Greedy(c, rows, target) && (c.current == [] || Size(c.current) + row.size <= target)
    ensures Greedy(Cut(c.parts, c.current + [row]), rows + [row], target)
  {
    var more := c.current + [row];
    FlattenMore(c.parts, more);
    if c.current != [] {
      FlattenMore(c.parts, c.current);
      FitsEach(c.parts, c.current, rows, target);
    }
    SizeSuffix(c.current, [row]);
    SizeOne(row);
    assert Flatten(c.parts + [more]) == rows + [row];
    StillNeeds(rows, |rows| - |c.current|, row, target, |c.parts| + 1);
  }

  function Place(c: Cut, row: Asset, target: int): Cut {
    if c.current != [] && Size(c.current) + row.size > target then Cut(c.parts + [c.current], [row])
    else Cut(c.parts, c.current + [row])
  }

  /** The cut after all rows have been placed in turn. */
  function CutOf(rows: seq<Asset>, target: int): Cut {
    if |rows| == 0 then Cut([], []) else Place(CutOf(rows[..|rows| - 1], target), rows[|rows| - 1], target)
  }

  lemma PlaceKeeps(c: Cut, rows: seq<Asset>, target: int)
    requires |rows| > 0 && Greedy(c, rows[..|rows| - 1], target)
    ensures Greedy(Place(c, rows[|rows| - 1], target), rows, target)
  {
    var before, row := rows[..|rows| - 1], rows[|rows| - 1];
    assert before + [row] == rows;
    if c.current != [] && Size(c.current) + row.size > target {
      CloseKeeps(c, before, row, target);
    } else {
      ExtendKeeps(c, before, row, target);
    }
  }

  lemma {:induction false} CutIsGreedy(rows: seq<Asset>, target: int)
    ensures Greedy(CutOf(rows, target), rows, target)
  {
    if |rows| > 0 {
      CutIsGreedy(rows[..|rows| - 1], target);
      PlaceKeeps(CutOf(rows[..|rows| - 1], target), rows, target);
    } else {
      assert Flatten([]) == rows;
    }
  }

  lemma PlaceSize(c: Cut, row: Asset, target: int)
    ensures Place(c, row, target).current == [row] ==> Size([row]) == row.size
    ensures Size(c.current + [row]) == Size(c.current) + row.size
  {
    SizeOne(row);
    SizeSuffix(c.current, [row]);
  }

  lemma GreedyIsLeast(c: Cut, rows: seq<Asset>, target: int)
    requires Greedy(c, rows, target)
    ensures Partitions(Closed(c.parts, c.current), rows, target) && Needs(rows, target, |Closed(c.parts, c.current)|)
  {
    if c.current != [] {
      assert rows[..|rows|] == rows;
      assert Needs(rows[..|rows|], target, |c.parts| + 1);
    }
  }

  /** _partition_assets: greedy, and no order-preserving cut does with fewer parts. */
  method PartitionAssets(rows: seq<Asset>, target: int) returns (parts: seq<seq<Asset>>)
    ensures Partitions(parts, rows, target) && Needs(rows, target, |parts|)
  {
    parts := [];
    var current: seq<Asset>, currentSize := [], 0;
    for i := 0 to |rows|
      invariant Cut(parts, current) == CutOf(rows[..i], target) && currentSize == Size(current)
    {
      assert rows[..i + 1][..i] == rows[..i];
      PlaceSize(Cut(parts, current), rows[i], target);
      if current != [] && currentSize + rows[i].size > target {
        parts := parts + [current];
        current, currentSize := [], 0;
      }
      current := current + [rows[i]];
      currentSize := currentSize + rows[i].size;
    }
    assert rows[..|rows|] == rows;
    CutIsGreedy(rows, target);
    GreedyIsLeast(Cut(parts, current), rows, target);
    parts := Closed(parts, current);
  }
}
