/** Irregular columnar transposition: fill rows, read the columns in key order, and undo it. */
module Columnar {
  import opened ModArith
  import opened Results
  import opened Permutations

  // -- the grid ------------------------------------------------------------------

  /** Cells in column col when `length` runes fill rows of c columns. */
  function Height(length: int, c: nat, col: nat): nat
    requires c > 0
    decreases length
  {
    if length <= col then 0 else 1 + Height(length - c, c, col)
  }

  /** Cell (r, col) exists iff its reading position does. */
  lemma {:induction false} CellIff(length: int, c: nat, col: nat, r: nat)
    requires c > 0
    ensures r < Height(length, c, col) <==> r * c + col < length
    decreases r
  {
    if length > col && r > 0 {
      CellIff(length - c, c, col, r - 1);
      assert (r - 1) * c == r * c - c;
    } else if r > 0 {
      assert r * c >= c;
    }
  }

  /** The source's column lengths: ceil(length / c) rows, one fewer beyond the remainder. */
  function ColumnLength(length: nat, c: nat, col: nat): int
    requires c > 0
  {
    var rows, rem := (length + c - 1) / c, length % c;
    if rem == 0 || col < rem then rows else rows - 1
  }

  lemma MulCancel(a: int, b: int, c: nat)
    requires c > 0 && a * c == b * c
    ensures a == b
  {
    SmallMultiple(a - b, c) by {
      assert (a - b) * c == a * c - b * c;
    }
  }

  lemma QuotientIs(x: int, c: nat, q: int, r: nat)
    requires r < c && x == q * c + r
    ensures x / c == q && x % c == r
  {
    CongBy(x, r, c, q);
    CongIsMod(x, r, c);
    ModOfReduced(r, c);
    MulCancel(x / c, q, c);
  }

  lemma DivShift(x: int, c: nat)
    requires c > 0
    ensures (x + c) / c == x / c + 1 && (x + c) % c == x % c
  {
    assert x + c == (x / c + 1) * c + x % c by {
      assert (x / c + 1) * c == (x / c) * c + c;
    }
    QuotientIs(x + c, c, x / c + 1, x % c);
  }

  lemma {:induction false} ColumnLengthIsHeight(length: nat, c: nat, col: nat)
    requires c > 0 && col < c
    ensures ColumnLength(length, c, col) == Height(length, c, col)
    decreases length
  {
    if length >= c {
      ColumnLengthIsHeight(length - c, c, col);
      DivShift(length - 1, c);
      DivShift(length - c, c);
    } else if length == 0 {
      QuotientIs(c - 1, c, 0, c - 1);
      QuotientIs(0, c, 0, 0);
    } else {
      QuotientIs(length + c - 1, c, 1, length - 1);
      QuotientIs(length, c, 0, length);
    }
  }

  function Heights(length: nat, c: nat): nat -> nat
    requires c > 0
  {
    (col: nat) => Height(length, c, col)
  }

  lemma {:induction false} HeightsOfShort(length: nat, c: nat, k: nat)
    requires length < c && k <= c
    ensures SumBelow(k, Heights(length, c)) == if k < length then k else length
  {
    if k > 0 {
      HeightsOfShort(length, c, k - 1);
      assert Height(length - c, c, k - 1) == 0;
    }
  }

  lemma {:induction false} HeightsGrow(length: nat, c: nat, k: nat)
    requires 0 < c <= length && k <= c
    ensures SumBelow(k, Heights(length, c)) == SumBelow(k, Heights(length - c, c)) + k
  {
    if k > 0 {
      HeightsGrow(length, c, k - 1);
    }
  }

  /** The columns' cells are all the cells. */
  lemma {:induction false} HeightsSum(length: nat, c: nat)
    requires c > 0
    ensures SumBelow(c, Heights(length, c)) == length
    decreases length
  {
    if length < c {
      HeightsOfShort(length, c, c);
    } else {
      HeightsSum(length - c, c);
      HeightsGrow(length, c, c);
    }
  }

  // -- where the columns stand in the ciphertext -----------------------------------

  /** Where the i-th column that is read starts. */
  function Start(length: nat, perm: seq<nat>, i: nat): nat
    requires |perm| > 0 && i <= |perm|
  {
    if i == 0 then 0 else Start(length, perm, i - 1) + Height(length, |perm|, perm[i - 1])
  }

  lemma {:induction false} StartIsSum(length: nat, perm: seq<nat>, i: nat)
    requires |perm| > 0 && i <= |perm|
    ensures Start(length, perm, i) == Sum(perm[..i], Heights(length, |perm|))
  {
    if i > 0 {
      StartIsSum(length, perm, i - 1);
      assert perm[..i][..i - 1] == perm[..i - 1];
    }
  }

  lemma {:induction false} StartGrows(length: nat, perm: seq<nat>, i: nat, j: nat)
    requires |perm| > 0 && i <= j <= |perm|
    ensures Start(length, perm, i) <= Start(length, perm, j)
    decreases j
  {
    if i < j {
      StartGrows(length, perm, i, j - 1);
    }
  }

  /** The slices taken for the columns use up the text exactly. */
  lemma StartTotal(length: nat, perm: seq<nat>)
    requires |perm| > 0 && IsPerm(perm, |perm|)
    ensures Start(length, perm, |perm|) == length
  {
    assert perm[..|perm|] == perm;
    StartIsSum(length, perm, |perm|);
    PermSum(perm, |perm|, Heights(length, |perm|));
    HeightsSum(length, |perm|);
  }

  /** The ciphertext position of cell (r, perm[k]). */
  function CipherAt(length: nat, perm: seq<nat>, k: nat, r: nat): (p: nat)
    requires |perm| > 0 && IsPerm(perm, |perm|) && k < |perm| && r < Height(length, |perm|, perm[k])
    ensures p < length && Start(length, perm, k) <= p < Start(length, perm, k + 1)
  {
    StartGrows(length, perm, k + 1, |perm|);
    StartTotal(length, perm);
    Start(length, perm, k) + r
  }

  lemma NextRow(r: nat, c: nat)
    ensures (r + 1) * c == r * c + c
  {
  }

  /** The row and the column of plaintext position w when rows of c are filled. */
  function PlainCell(w: nat, c: nat): (cell: (nat, nat))
    requires c > 0
    ensures cell.1 < c && w == cell.0 * c + cell.1
  {
    if w < c then (0, w)
    else
      var (r, col) := PlainCell(w - c, c);
      NextRow(r, c);
      (r + 1, col)
  }

  lemma {:induction false} PlainCellIs(r: nat, col: nat, c: nat)
    requires col < c
    ensures PlainCell(r * c + col, c) == (r, col)
  {
    if r > 0 {
      NextRow(r - 1, c);
      PlainCellIs(r - 1, col, c);
    }
  }

  /** The ciphertext position of plaintext position w. */
  function CipherPosition(length: nat, perm: seq<nat>, w: nat): (p: nat)
    requires |perm| > 0 && IsPerm(perm, |perm|) && w < length
    ensures p < length
  {
    var (r, col) := PlainCell(w, |perm|);
    CellIff(length, |perm|, col, r);
    CipherAt(length, perm, IndexOf(perm, |perm|, col), r)
  }

  /** In terms of the cell: position r * c + perm[k] goes to row r of the k-th column read. */
  lemma CipherPositionIs(length: nat, perm: seq<nat>, k: nat, r: nat)
    requires |perm| > 0 && IsPerm(perm, |perm|) && k < |perm| && r < Height(length, |perm|, perm[k])
    ensures r * |perm| + perm[k] < length
    ensures CipherPosition(length, perm, r * |perm| + perm[k]) == CipherAt(length, perm, k, r)
  {
    CellIff(length, |perm|, perm[k], r);
    PlainCellIs(r, perm[k], |perm|);
    var i := IndexOf(perm, |perm|, perm[k]);
    assert perm[i] == perm[k];
  }

  /** Which column, in reading order, holds ciphertext position p. */
  function ReadIndex(length: nat, perm: seq<nat>, p: nat, i: nat): (k: nat)
    requires |perm| > 0 && i <= |perm| && p < Start(length, perm, i)
    ensures k < i && Start(length, perm, k) <= p < Start(length, perm, k + 1)
  {
    if Start(length, perm, i - 1) <= p then i - 1 else ReadIndex(length, perm, p, i - 1)
  }

  /** Every ciphertext position belongs to exactly one cell. */
  lemma CellOf(length: nat, perm: seq<nat>, p: nat) returns (k: nat, r: nat)
    requires |perm| > 0 && IsPerm(perm, |perm|) && p < length
    ensures k < |perm| && r < Height(length, |perm|, perm[k]) && CipherAt(length, perm, k, r) == p
  {
    StartTotal(length, perm);
    k := ReadIndex(length, perm, p, |perm|);
    r := p - Start(length, perm, k);
  }

  // -- encryption ------------------------------------------------------------------

  function Column(pt: seq<nat>, c: nat, col: nat): (s: seq<nat>)
    requires c > 0 && col < c
    ensures |s| == Height(|pt|, c, col)
  {
    seq(Height(|pt|, c, col), r requires 0 <= r < Height(|pt|, c, col) =>
      CellIff(|pt|, c, col, r); pt[r * c + col])
  }

  function ReadColumns(pt: seq<nat>, perm: seq<nat>, i: nat): (s: seq<nat>)
    requires |perm| > 0 && IsPerm(perm, |perm|) && i <= |perm|
    ensures |s| == Start(|pt|, perm, i)
  {
    if i == 0 then [] else ReadColumns(pt, perm, i - 1) + Column(pt, |perm|, perm[i - 1])
  }

  /** Fill rows, read the columns in perm order: what undo_columnar_with_perm undoes. */
  function Encrypt(pt: seq<nat>, perm: seq<nat>): (ct: seq<nat>)
    requires |perm| > 0 && IsPerm(perm, |perm|)
    ensures |ct| == |pt|
  {
    StartTotal(|pt|, perm);
    ReadColumns(pt, perm, |perm|)
  }

  lemma {:induction false} ReadColumnsAt(pt: seq<nat>, perm: seq<nat>, i: nat, k: nat, r: nat)
    requires |perm| > 0 && IsPerm(perm, |perm|) && k < i <= |perm| && r < Height(|pt|, |perm|, perm[k])
    ensures r * |perm| + perm[k] < |pt| && CipherAt(|pt|, perm, k, r) < Start(|pt|, perm, i)
    ensures ReadColumns(pt, perm, i)[CipherAt(|pt|, perm, k, r)] == pt[r * |perm| + perm[k]]
    decreases i
  {
    StartGrows(|pt|, perm, k + 1, i);
    CellIff(|pt|, |perm|, perm[k], r);
    if k < i - 1 {
      ReadColumnsAt(pt, perm, i - 1, k, r);
    }
  }

  // -- decryption ------------------------------------------------------------------

  /** What undo_columnar_with_perm returns. */
  function Undo(ct: seq<nat>, perm: seq<nat>): (pt: seq<nat>)
    requires |perm| > 0 && IsPerm(perm, |perm|)
    ensures |pt| == |ct|
  {
    seq(|ct|, w requires 0 <= w < |ct| => ct[CipherPosition(|ct|, perm, w)])
  }

  lemma UndoAt(ct: seq<nat>, perm: seq<nat>, k: nat, r: nat)
    requires |perm| > 0 && IsPerm(perm, |perm|) && k < |perm| && r < Height(|ct|, |perm|, perm[k])
    ensures r * |perm| + perm[k] < |ct|
    ensures Undo(ct, perm)[r * |perm| + perm[k]] == ct[CipherAt(|ct|, perm, k, r)]
  {
    var w := r * |perm| + perm[k];
    CipherPositionIs(|ct|, perm, k, r);
    assert Undo(ct, perm)[w] == ct[CipherPosition(|ct|, perm, w)];
  }

  lemma CellAt(length: nat, perm: seq<nat>, w: nat) returns (k: nat, r: nat)
    requires |perm| > 0 && IsPerm(perm, |perm|) && w < length
    ensures k < |perm| && r < Height(length, |perm|, perm[k]) && w == r * |perm| + perm[k]
  {
    var (row, col) := PlainCell(w, |perm|);
    k, r := IndexOf(perm, |perm|, col), row;
    CellIff(length, |perm|, col, row);
  }

  /** Decryption undoes encryption, for every text length and every permutation. */
  lemma UndoEncrypt(pt: seq<nat>, perm: seq<nat>)
    requires |perm| > 0 && IsPerm(perm, |perm|)
    ensures Undo(Encrypt(pt, perm), perm) == pt
  {
    forall w | 0 <= w < |pt| ensures Undo(Encrypt(pt, perm), perm)[w] == pt[w] {
      var k, r := CellAt(|pt|, perm, w);
      UndoAt(Encrypt(pt, perm), perm, k, r);
      ReadColumnsAt(pt, perm, |perm|, k, r);
    }
  }

  /** And the other way round: nothing of the ciphertext is lost or read twice. */
  lemma EncryptUndo(ct: seq<nat>, perm: seq<nat>)
    requires |perm| > 0 && IsPerm(perm, |perm|)
    ensures Encrypt(Undo(ct, perm), perm) == ct
  {
    forall p | 0 <= p < |ct| ensures Encrypt(Undo(ct, perm), perm)[p] == ct[p] {
      var k, r := CellOf(|ct|, perm, p);
      UndoAt(ct, perm, k, r);
      ReadColumnsAt(Undo(ct, perm), perm, |perm|, k, r);
    }
  }

  datatype PermError = EmptyPerm | NotAPermutation

  ghost predicate Sliced(ct: seq<nat>, p: seq<nat>, column: seq<nat>, k: nat)
    requires |p| > 0 && IsPerm(p, |p|) && k < |p|
  {
    |column| == Height(|ct|, |p|, p[k]) &&
    forall r: nat :: r < |column| ==> column[r] == ct[CipherAt(|ct|, p, k, r)]
  }

  lemma NextSliced(ct: seq<nat>, p: seq<nat>, k: nat)
    requires |p| > 0 && IsPerm(p, |p|) && k < |p|
    ensures Start(|ct|, p, k + 1) == Start(|ct|, p, k) + Height(|ct|, |p|, p[k]) <= |ct|
    ensures Sliced(ct, p, ct[Start(|ct|, p, k)..Start(|ct|, p, k + 1)], k)
  {
    StartGrows(|ct|, p, k + 1, |p|);
    StartTotal(|ct|, p);
  }

  method SliceColumns(ct: seq<nat>, p: seq<nat>) returns (columns: seq<seq<nat>>)
    requires |p| > 0 && IsPerm(p, |p|)
    ensures |columns| == |p| && forall k :: 0 <= k < |p| ==> Sliced(ct, p, columns[p[k]], k)
  {
    var c := |p|;
    var cols := new seq<nat>[c](_ => []);
    var pos := 0;
    for k := 0 to c
      invariant pos == Start(|ct|, p, k)
      invariant forall j :: 0 <= j < k ==> Sliced(ct, p, cols[p[j]], j)
    {
      ColumnLengthIsHeight(|ct|, c, p[k]);
      var ln := ColumnLength(|ct|, c, p[k]);
      NextSliced(ct, p, k);
      cols[p[k]] := ct[pos..pos + ln];
      pos := pos + ln;
    }
    columns := cols[..];
  }

  /** The cell of row and col exists iff its position does, and is the one to write there. */
  lemma NextCell(ct: seq<nat>, p: seq<nat>, cols: seq<seq<nat>>, row: nat, col: nat)
    requires |p| > 0 && IsPerm(p, |p|) && col < |p|
    requires |cols| == |p| && forall k :: 0 <= k < |p| ==> Sliced(ct, p, cols[p[k]], k)
    ensures row < ColumnLength(|ct|, |p|, col) <==> row * |p| + col < |ct|
    ensures row * |p| + col < |ct| ==> row < |cols[col]| && cols[col][row] == Undo(ct, p)[row * |p| + col]
  {
    ColumnLengthIsHeight(|ct|, |p|, col);
    CellIff(|ct|, |p|, col, row);
    if row * |p| + col < |ct| {
      var k := IndexOf(p, |p|, col);
      UndoAt(ct, p, k, row);
      assert Sliced(ct, p, cols[p[k]], k);
    }
  }

  /** The first w cells of the output are final. */
  ghost predicate Written(out: seq<nat>, ct: seq<nat>, p: seq<nat>, w: nat)
    requires |p| > 0 && IsPerm(p, |p|)
  {
    |out| == |ct| && w <= |out| && forall x :: 0 <= x < w ==> out[x] == Undo(ct, p)[x]
  }

  lemma RowsCover(length: nat, c: nat)
    requires c > 0
    ensures ((length + c - 1) / c) * c >= length
  {
    var x := length + c - 1;
    assert x == (x / c) * c + x % c;
  }

  method WriteRows(ct: seq<nat>, p: seq<nat>, cols: seq<seq<nat>>) returns (plain: seq<nat>)
    requires |p| > 0 && IsPerm(p, |p|)
    requires |cols| == |p| && forall k :: 0 <= k < |p| ==> Sliced(ct, p, cols[p[k]], k)
    ensures plain == Undo(ct, p)
  {
    var c, length := |p|, |ct|;
    var rows := (length + c - 1) / c;
    var out := new nat[length](_ => 0);
    var w := 0;
    for row := 0 to rows
      invariant Written(out[..], ct, p, w)
      invariant w == Min(row * c, length)
    {
      NextRow(row, c);
      for col := 0 to c
        invariant Written(out[..], ct, p, w)
        invariant w == Min(row * c + col, length)
      {
        NextCell(ct, p, cols, row, col);
        if row < ColumnLength(length, c, col) {
          out[w] := cols[col][row];
          w := w + 1;
        }
      }
    }
    RowsCover(length, c);
    plain := out[..];
  }

  /** undo_columnar_with_perm: slice the columns off the ciphertext, then write row by row. */
  method UndoColumnarWithPerm(ct: seq<nat>, perm: seq<int>) returns (r: Result<seq<nat>, PermError>)
    ensures r == Err(EmptyPerm) <==> perm == []
    ensures r == Err(NotAPermutation) <==> perm != [] && !IsIntPerm(perm, |perm|)
    ensures r.Ok? ==> IsPerm(perm, |perm|) && r.value == Undo(ct, perm)
  {
    if perm == [] {
      return Err(EmptyPerm);
    }
    if !IsIntPerm(perm, |perm|) {
      return Err(NotAPermutation);
    }
    var cols := SliceColumns(ct, perm);
    var out := WriteRows(ct, perm, cols);
    return Ok(out);
  }
}
