/**
  The first-fit-decreasing row-displacement construction of mphf.py.

  Keys are laid out in a t-by-t grid, key k at row k / t and column k % t.
  Each row is then rotated so that its items fall on columns that no earlier
  row uses. Rows are taken most populous first, and each goes to the first
  free column that passes the column check. The rotation of each row is
  recorded in a displacement vector. Finally the grid is flattened by taking
  the topmost item of every column.

  A row is an array of cells rotated in place. The matrix is a sequence of
  distinct row arrays. Every operation is specified by a function on
  sequences, and the methods are proved to compute exactly that function.
*/
module Mphf {
  import opened Wrappers
  import opened Builtins

  /** A grid cell: empty (None), or the key placed there. */
  type Cell = Option<int>

  /** The exceptions mphf.py raises, as values. */
  datatype MphfError = ValueError | AssertionError | IndexError | NameError

  // ---------------------------------------------------------------------------
  // Python indexing and slicing
  // ---------------------------------------------------------------------------

  /** The position a Python index i denotes in a list of length len (negative indices count from the end), if any. */
  function PyIndex(i: int, len: nat): (r: Option<nat>)
    ensures r.Some? <==> 0 <= i + len && i < len
    ensures r.Some? ==> r.value < len && (r.value == i || r.value == i + len)
  {
    if 0 <= i < len then Some(i) else if 0 <= i + len && i < 0 then Some(i + len) else None
  }

  /** The cut point of the slices s[:d] and s[d:]: negative d counts from the end, and both are clamped to the list. */
  function SliceBound(d: int, len: nat): (k: nat)
    ensures k <= len
    ensures 0 <= d + len && d <= len ==> (d < 0 ==> k == d + len) && (0 <= d ==> k == d)
  {
    if d < 0 then (if len + d < 0 then 0 else len + d)
    else if d > len then len
    else d
  }

  /** Modular arithmetic that the rotation lemmas use: a number within one period of j in [0, n) reduces to j. */
  lemma ModWithinPeriod(a: int, n: int, j: int)
    requires 0 <= j < n && (a == j || a == j + n || a == j - n)
    ensures a % n == j
  {
    if a == j + n {
      assert (j + n) % n == j % n;
    } else if a == j - n {
      assert (j - n) % n == j % n;
    }
  }

  // ---------------------------------------------------------------------------
  // rotate_row
  // ---------------------------------------------------------------------------

  /** rotate_row's new contents: row[d:] + row[:d]. */
  function Rotated<T>(s: seq<T>, d: int): (r: seq<T>)
    ensures |r| == |s|
  {
    var k := SliceBound(d, |s|);
    s[k..] + s[..k]
  }

  /** A rotation keeps the row's elements and their multiplicities. */
  lemma RotatedPermutes<T>(s: seq<T>, d: int)
    ensures multiset(Rotated(s, d)) == multiset(s)
  {
    var k := SliceBound(d, |s|);
    assert s == s[..k] + s[k..];
  }

  /** For |d| <= len the rotation is cyclic and moves left by d: position i takes the element at (i + d) mod len. */
  lemma RotatedAt<T>(s: seq<T>, d: int, i: int)
    requires -|s| <= d <= |s| && 0 <= i < |s|
    ensures Rotated(s, d)[i] == s[(i + d) % |s|]
  {
    var n, k := |s|, SliceBound(d, |s|);
    if i < n - k {
      assert Rotated(s, d)[i] == s[k + i];
      ModWithinPeriod(i + d, n, k + i);
    } else {
      assert Rotated(s, d)[i] == s[i + k - n];
      ModWithinPeriod(i + d, n, i + k - n);
    }
  }

  /** Rotating by 0 leaves the row as it is. */
  lemma RotatedZero<T>(s: seq<T>)
    ensures Rotated(s, 0) == s
  {
    assert s[..0] == [] && s[0..] == s;
  }

  /** Rotating by d and then by -d restores the row. */
  lemma RotatedInverse<T>(s: seq<T>, d: int)
    requires -|s| <= d <= |s|
    ensures Rotated(Rotated(s, d), -d) == s
  {
    var n, k := |s|, SliceBound(d, |s|);
    var r := Rotated(s, d);
    if d == 0 {
      assert r == s;
      return;
    }
    assert SliceBound(-d, n) == n - k;
    assert r[n - k..] == s[..k];
    assert r[..n - k] == s[k..];
    assert s == s[..k] + s[k..];
  }

  /** rotate_row(row, displacement): replaces the row's contents in place by row[d:] + row[:d] and returns the same list. */
  method RotateRow<T>(row: array<T>, displacement: int) returns (same: array<T>)
    modifies row
    ensures same == row
    ensures row[..] == Rotated(old(row[..]), displacement)
  {
    var k := SliceBound(displacement, row.Length);
    var front, back := row[..k], row[k..];
    var rotated := back + front;
    forall i | 0 <= i < row.Length {
      row[i] := rotated[i];
    }
    same := row;
  }

  /** The doctests of rotate_row: [1, 2, 3, 4, 5] rotated by 1 and by -2. */
  method RotateRowDoctest() returns (left: seq<int>, right: seq<int>)
    ensures left == [2, 3, 4, 5, 1]
    ensures right == [4, 5, 1, 2, 3]
  {
    var a := new int[5] [1, 2, 3, 4, 5];
    var b := new int[5] [1, 2, 3, 4, 5];
    assert a[..] == [1, 2, 3, 4, 5] && b[..] == [1, 2, 3, 4, 5];
    var ra := RotateRow(a, 1);
    var rb := RotateRow(b, -2);
    left, right := ra[..], rb[..];
  }

  // ---------------------------------------------------------------------------
  // rotate_nones
  // ---------------------------------------------------------------------------

  /** One more left step of a rotation by d < len is the rotation by d + 1. */
  lemma RotatedStep<T>(s: seq<T>, d: nat)
    requires d < |s|
    ensures Rotated(s, d)[1..] + [Rotated(s, d)[0]] == Rotated(s, d + 1)
  {
    assert Rotated(s, d)[0] == s[d];
    assert s[d..][1..] == s[d + 1..];
    assert s[..d] + [s[d]] == s[..d + 1];
  }

  /** Rotating by the full length gives the row back. */
  lemma RotatedFull<T>(s: seq<T>)
    ensures Rotated(s, |s|) == s
  {
  }

  /** If no rotation by 0 .. len-1 brings an item to position i, the row holds no item at all. */
  lemma NoRotationFindsItem(s: seq<Cell>, i: nat)
    requires i < |s|
    requires forall j :: 0 <= j < |s| ==> Rotated(s, j)[i].None?
    ensures forall m :: 0 <= m < |s| ==> s[m].None?
  {
    var n := |s|;
    forall m | 0 <= m < n ensures s[m].None? {
      var j := if m >= i then m - i else m - i + n;
      RotatedAt(s, j, i);
      ModWithinPeriod(i + j, n, m);
    }
  }

  /** xs.pop(0) followed by xs.append(head): the head moves to the back. */
  method PopAppend(xs: array<Cell>)
    requires xs.Length > 0
    modifies xs
    ensures xs[..] == old(xs[1..]) + [old(xs[0])]
  {
    var head := xs[0];
    var rest := xs[1..];
    forall i | 0 <= i < xs.Length - 1 {
      xs[i] := rest[i];
    }
    xs[xs.Length - 1] := head;
  }

  /** The number of left steps, counting from d, after which position i holds an item; len(s) when no step does. */
  function StepsToItem(s: seq<Cell>, i: nat, d: nat): (k: nat)
    requires i < |s|
    decreases |s| - d
  {
    if d >= |s| then |s|
    else if Rotated(s, d)[i].Some? then d
    else StepsToItem(s, i, d + 1)
  }

  /**
    The step count is the least rotation that brings an item to position i;
    it is len(s) exactly when the row holds no item.
  */
  lemma {:induction false} StepsToItemIsLeast(s: seq<Cell>, i: nat, d: nat)
    requires i < |s| && d <= |s|
    ensures d <= StepsToItem(s, i, d) <= |s|
    ensures StepsToItem(s, i, d) < |s| ==> Rotated(s, StepsToItem(s, i, d))[i].Some?
    ensures forall j :: d <= j < StepsToItem(s, i, d) ==> Rotated(s, j)[i].None?
    decreases |s| - d
  {
    if d < |s| && Rotated(s, d)[i].None? {
      StepsToItemIsLeast(s, i, d + 1);
    }
  }

  /** No step brings an item to position i exactly when the row holds no item. */
  lemma StepsToItemNone(s: seq<Cell>, i: nat)
    requires i < |s|
    ensures StepsToItem(s, i, 0) == |s| <==> forall j :: 0 <= j < |s| ==> s[j].None?
  {
    StepsToItemIsLeast(s, i, 0);
    var k := StepsToItem(s, i, 0);
    if k == |s| {
      NoRotationFindsItem(s, i);
    } else {
      RotatedAt(s, k, i);
    }
  }

  /** The loop of rotate_nones once n is a position i of the list: left steps until position i holds an item. */
  method RotateToItem(xs: array<Cell>, i: nat) returns (r: Result<nat, MphfError>)
    requires i < xs.Length
    modifies xs
    ensures r.Failure? ==> r.error == ValueError && xs[..] == old(xs[..]) && StepsToItem(old(xs[..]), i, 0) == xs.Length
    ensures r.Success? ==> r.value == StepsToItem(old(xs[..]), i, 0) < xs.Length && xs[..] == Rotated(old(xs[..]), r.value)
  {
    ghost var s := xs[..];
    var displacement := 0;
    while xs[i].None?
      invariant 0 <= displacement < xs.Length
      invariant xs[..] == Rotated(s, displacement)
      invariant StepsToItem(s, i, displacement) == StepsToItem(s, i, 0)
      decreases xs.Length - displacement
    {
      RotatedStep(s, displacement);
      PopAppend(xs);
      displacement := displacement + 1;
      if displacement >= xs.Length {
        RotatedFull(s);
        return Failure(ValueError);
      }
    }
    r := Success(displacement);
  }

  /**
    rotate_nones(xs, n): rotates xs left one step at a time until xs[n] holds
    an item, and returns the number of steps. It fails with AssertionError when
    n >= len(xs), with IndexError when n is too negative, and with ValueError
    (the row being back as it was) when the row holds no item.
  */
  method RotateNones(xs: array<Cell>, n: int) returns (r: Result<nat, MphfError>)
    modifies xs
    ensures n >= xs.Length ==> r == Failure(AssertionError)
    ensures n < xs.Length && PyIndex(n, xs.Length).None? ==> r == Failure(IndexError)
    ensures r == Failure(ValueError) <==>
      n < xs.Length && PyIndex(n, xs.Length).Some? && forall j :: 0 <= j < xs.Length ==> old(xs[j]).None?
    ensures r.Failure? ==> xs[..] == old(xs[..])
    ensures r.Success? ==> PyIndex(n, xs.Length).Some? && r.value < xs.Length
    ensures r.Success? ==> xs[..] == Rotated(old(xs[..]), r.value) && xs[PyIndex(n, xs.Length).value].Some?
    ensures r.Success? ==> forall j :: 0 <= j < r.value ==> Rotated(old(xs[..]), j)[PyIndex(n, xs.Length).value].None?
  {
    if n >= xs.Length {
      return Failure(AssertionError);
    }
    var index := PyIndex(n, xs.Length);
    if index.None? {
      return Failure(IndexError);
    }
    ghost var s := xs[..];
    StepsToItemIsLeast(s, index.value, 0);
    StepsToItemNone(s, index.value);
    r := RotateToItem(xs, index.value);
  }

  // ---------------------------------------------------------------------------
  // get_first_non_none, count_nones
  // ---------------------------------------------------------------------------

  /** get_first_non_none: the least index holding an item; ValueError when the row holds none. */
  function FirstNonNone(xs: seq<Cell>): (r: Result<nat, MphfError>)
    ensures r.Success? ==> r.value < |xs| && xs[r.value].Some? && forall j :: 0 <= j < r.value ==> xs[j].None?
    ensures r.Failure? ==> r.error == ValueError && forall j :: 0 <= j < |xs| ==> xs[j].None?
  {
    if xs == [] then Failure(ValueError)
    else if xs[0].Some? then Success(0)
    else match FirstNonNone(xs[1..])
      case Success(i) => Success(i + 1)
      case Failure(e) => Failure(e)
  }

  /** The first item's index determines FirstNonNone. */
  lemma FirstNonNoneAt(xs: seq<Cell>, i: nat)
    requires i < |xs| && xs[i].Some? && forall j :: 0 <= j < i ==> xs[j].None?
    ensures FirstNonNone(xs) == Success(i)
  {
  }

  /** The loop of get_first_non_none computes FirstNonNone. */
  method GetFirstNonNone(xs: seq<Cell>) returns (r: Result<nat, MphfError>)
    ensures r == FirstNonNone(xs)
  {
    for i := 0 to |xs|
      invariant forall j :: 0 <= j < i ==> xs[j].None?
    {
      if xs[i].Some? {
        return Success(i);
      }
    }
    return Failure(ValueError);
  }

  /** The number of empty cells of a row. */
  function NoneCount(xs: seq<Cell>): (c: nat)
    ensures c <= |xs|
    ensures c == |xs| <==> forall j :: 0 <= j < |xs| ==> xs[j].None?
  {
    if xs == [] then 0
    else NoneCount(xs[..|xs| - 1]) + (if xs[|xs| - 1].None? then 1 else 0)
  }

  /** The count agrees with the multiplicity of None in the row. */
  lemma {:induction false} NoneCountIsMultiplicity(xs: seq<Cell>)
    ensures NoneCount(xs) == multiset(xs)[None]
  {
    if xs != [] {
      var init := xs[..|xs| - 1];
      NoneCountIsMultiplicity(init);
      assert xs == init + [xs[|xs| - 1]];
    }
  }

  /** count_nones: a counting loop over the row. */
  method CountNones(xs: seq<Cell>) returns (count: nat)
    ensures count == NoneCount(xs)
  {
    count := 0;
    for k := 0 to |xs|
      invariant count == NoneCount(xs[..k])
    {
      assert xs[..k + 1][..k] == xs[..k];
      if xs[k].None? {
        count := count + 1;
      }
    }
    assert xs[..|xs|] == xs;
  }

  // ---------------------------------------------------------------------------
  // check_columns_okay
  // ---------------------------------------------------------------------------

  /** check_columns_okay(free, row, offset) from index i on: each item there lands on a free column once shifted by offset. */
  predicate FitsFrom(free: seq<int>, row: seq<Cell>, offset: int, i: nat)
    decreases |row| - i
  {
    i >= |row| || ((row[i].None? || (i + offset) % |row| in free) && FitsFrom(free, row, offset, i + 1))
  }

  /** check_columns_okay(free, row, offset). */
  predicate ColumnsFit(free: seq<int>, row: seq<Cell>, offset: int)
  {
    FitsFrom(free, row, offset, 0)
  }

  /** The check passes exactly when every item at index i lands on a free column (i + offset) mod len(row). */
  lemma {:induction false} FitsFromMeans(free: seq<int>, row: seq<Cell>, offset: int, i: nat)
    ensures FitsFrom(free, row, offset, i) <==>
      forall j :: i <= j < |row| && row[j].Some? ==> (j + offset) % |row| in free
    decreases |row| - i
  {
    if i < |row| {
      FitsFromMeans(free, row, offset, i + 1);
    }
  }

  /** ColumnsFit, item by item. */
  lemma ColumnsFitMeans(free: seq<int>, row: seq<Cell>, offset: int)
    ensures ColumnsFit(free, row, offset) <==>
      forall j :: 0 <= j < |row| && row[j].Some? ==> (j + offset) % |row| in free
  {
    FitsFromMeans(free, row, offset, 0);
  }

  /** The loop of check_columns_okay, which stops at the first item that lands outside the free columns. */
  method CheckColumnsOkay(free: seq<int>, row: seq<Cell>, offset: int) returns (ok: bool)
    ensures ok == ColumnsFit(free, row, offset)
  {
    for index := 0 to |row|
      invariant FitsFrom(free, row, offset, index) == ColumnsFit(free, row, offset)
    {
      if row[index].None? {
        continue;
      }
      var adjusted := (index + offset) % |row|;
      if adjusted !in free {
        return false;
      }
    }
    return true;
  }

  /** The column check on the doctests' four-cell rows, evaluated item by item. */
  lemma ColumnsFitSmallCases()
    ensures ColumnsFit([0, 1, 2, 3], [Some(1), None, Some(3), None], 0)
    ensures ColumnsFit([0, 2, 3], [None, None, Some(3), Some(4)], 0)
    ensures !ColumnsFit([], [None, None, Some(3), Some(4)], 0)
    ensures ColumnsFit([0], [None, None, Some(3), None], 2)
    ensures !ColumnsFit([0], [None, None, None, Some(4)], 2)
  {
    var r1: seq<Cell> := [Some(1), None, Some(3), None];
    forall i | 0 <= i < 4 && r1[i].Some? ensures (i + 0) % 4 in [0, 1, 2, 3] {
      ModWithinPeriod(i, 4, i);
    }
    var r2: seq<Cell> := [None, None, Some(3), Some(4)];
    forall i | 0 <= i < 4 && r2[i].Some? ensures (i + 0) % 4 in [0, 2, 3] {
      ModWithinPeriod(i, 4, i);
    }
    assert r2[2].Some? && (2 + 0) % 4 !in [];
    var r3: seq<Cell> := [None, None, Some(3), None];
    forall i | 0 <= i < 4 && r3[i].Some? ensures (i + 2) % 4 in [0] {
      assert i == 2;
      ModWithinPeriod(4, 4, 0);
    }
    var r4: seq<Cell> := [None, None, None, Some(4)];
    ModWithinPeriod(5, 4, 1);
    assert r4[3].Some? && (3 + 2) % 4 !in [0];
  }

  /** The five doctests of check_columns_okay. */
  method CheckColumnsOkayDoctest() returns (results: seq<bool>)
    ensures results == [true, true, false, true, false]
  {
    var a := CheckColumnsOkay([0, 1, 2, 3], [Some(1), None, Some(3), None], 0);
    ColumnsFitSmallCases();
    var b := CheckColumnsOkay([0, 2, 3], [None, None, Some(3), Some(4)], 0);
    var c := CheckColumnsOkay([], [None, None, Some(3), Some(4)], 0);
    var d := CheckColumnsOkay([0], [None, None, Some(3), None], 2);
    var e := CheckColumnsOkay([0], [None, None, None, Some(4)], 2);
    results := [a, b, c, d, e];
  }

  // ---------------------------------------------------------------------------
  // place_first_at
  // ---------------------------------------------------------------------------

  /** A placed row and the displacement place_first_at returns for it. */
  datatype Placement = Placement(row: seq<Cell>, shift: int)

  /**
    place_first_at(row, n): with first the index of the row's first item, the
    row is rotated by first - n (when that is not 0) and n - first is returned.
  */
  function PlaceFirst(row: seq<Cell>, n: int): Result<Placement, MphfError>
  {
    match FirstNonNone(row)
    case Failure(e) => Failure(e)
    case Success(first) => Success(Placement(if first != n then Rotated(row, first - n) else row, n - first))
  }

  /** place_first_at fails, with ValueError, exactly on a row without items. */
  lemma PlaceFirstFails(row: seq<Cell>, n: int)
    ensures PlaceFirst(row, n).Failure? <==> forall j :: 0 <= j < |row| ==> row[j].None?
    ensures PlaceFirst(row, n).Failure? ==> PlaceFirst(row, n).error == ValueError
  {
  }

  /**
    For a column n of the row, a successful place_first_at puts the row's first
    item at column n and returns n - first.
  */
  lemma PlaceFirstPutsFirstAt(row: seq<Cell>, n: int)
    requires 0 <= n < |row| && PlaceFirst(row, n).Success?
    ensures -|row| < PlaceFirst(row, n).value.shift < |row|
    ensures PlaceFirst(row, n).value.shift == n - FirstNonNone(row).value
    ensures |PlaceFirst(row, n).value.row| == |row|
    ensures PlaceFirst(row, n).value.row[n] == row[FirstNonNone(row).value]
  {
    var first := FirstNonNone(row).value;
    var d := first - n;
    if d != 0 {
      RotatedAt(row, d, n);
      ModWithinPeriod(n + d, |row|, first);
    }
  }

  /** place_first_at keeps the row's elements. */
  lemma PlaceFirstPermutes(row: seq<Cell>, n: int)
    requires PlaceFirst(row, n).Success?
    ensures multiset(PlaceFirst(row, n).value.row) == multiset(row)
  {
    RotatedPermutes(row, FirstNonNone(row).value - n);
  }

  /** A successful place_first_at at a column n of the row moves the item at index j to column (j + shift) mod len. */
  lemma PlaceFirstMoves(row: seq<Cell>, n: int)
    requires 0 <= n < |row| && PlaceFirst(row, n).Success?
    ensures |PlaceFirst(row, n).value.row| == |row|
    ensures forall c :: 0 <= c < |row| ==> PlaceFirst(row, n).value.row[c] == row[(c - PlaceFirst(row, n).value.shift) % |row|]
  {
    forall c | 0 <= c < |row| {
      PlaceFirstMovesAt(row, n, c);
    }
  }

  /** PlaceFirstMoves at one column c. */
  lemma PlaceFirstMovesAt(row: seq<Cell>, n: int, c: int)
    requires 0 <= n < |row| && PlaceFirst(row, n).Success? && 0 <= c < |row|
    ensures |PlaceFirst(row, n).value.row| == |row|
    ensures PlaceFirst(row, n).value.row[c] == row[(c - PlaceFirst(row, n).value.shift) % |row|]
  {
    var d := FirstNonNone(row).value - n;
    if d != 0 {
      RotatedAt(row, d, c);
    } else {
      ModWithinPeriod(c, |row|, c);
    }
  }

  /** place_first_at on a row held in an array: the row is rotated in place and the displacement returned. */
  method PlaceFirstAt(row: array<Cell>, n: int) returns (r: Result<int, MphfError>)
    modifies row
    ensures match PlaceFirst(old(row[..]), n)
      case Success(p) => r == Success(p.shift) && row[..] == p.row
      case Failure(e) => r == Failure(e) && row[..] == old(row[..])
  {
    var first := GetFirstNonNone(row[..]);
    if first.Failure? {
      return Failure(first.error);
    }
    var displacement := first.value - n;
    if displacement != 0 {
      var _ := RotateRow(row, displacement);
    }
    return Success(-displacement);
  }

  /** place_first_at([None, None, None, 1], 0): the item moves to the front and -3 is returned. */
  lemma PlaceFirstFirstDoctest()
    ensures PlaceFirst([None, None, None, Some(1)], 0) == Success(Placement([Some(1), None, None, None], -3))
  {
    var row: seq<Cell> := [None, None, None, Some(1)];
    FirstNonNoneAt(row, 3);
    assert Rotated(row, 3) == [Some(1), None, None, None];
  }

  /** place_first_at([1, None, 1, 2], 2): the row turns right by 2 and 2 is returned. */
  lemma PlaceFirstSecondDoctest()
    ensures PlaceFirst([Some(1), None, Some(1), Some(2)], 2) == Success(Placement([Some(1), Some(2), Some(1), None], 2))
  {
    var row: seq<Cell> := [Some(1), None, Some(1), Some(2)];
    FirstNonNoneAt(row, 0);
    assert Rotated(row, -2) == [Some(1), Some(2), Some(1), None];
  }

  /** The two doctests of place_first_at, on [None, None, None, 1] with n = 0 and on [1, None, 1, 2] with n = 2. */
  method PlaceFirstAtDoctest() returns (d1: Result<int, MphfError>, l1: seq<Cell>, d2: Result<int, MphfError>, l2: seq<Cell>)
    ensures d1 == Success(-3) && l1 == [Some(1), None, None, None]
    ensures d2 == Success(2) && l2 == [Some(1), Some(2), Some(1), None]
  {
    var a := new Cell[4] [None, None, None, Some(1)];
    var b := new Cell[4] [Some(1), None, Some(1), Some(2)];
    assert a[..] == [None, None, None, Some(1)] && b[..] == [Some(1), None, Some(1), Some(2)];
    PlaceFirstFirstDoctest();
    PlaceFirstSecondDoctest();
    d1 := PlaceFirstAt(a, 0);
    d2 := PlaceFirstAt(b, 2);
    l1, l2 := a[..], b[..];
  }

  // ---------------------------------------------------------------------------
  // try_all_free_slots
  // ---------------------------------------------------------------------------

  /** The position, from k on, of the first free column that passes check_columns_okay. */
  function FittingFrom(free: seq<int>, row: seq<Cell>, k: nat): (r: Option<nat>)
    decreases |free| - k
    ensures r.Some? ==> k <= r.value < |free|
  {
    if k >= |free| then None
    else if ColumnsFit(free, row, free[k]) then Some(k)
    else FittingFrom(free, row, k + 1)
  }

  /** The search finds the first free column from k on that passes the check, and finds none only when none does. */
  lemma {:induction false} FittingFromIsFirst(free: seq<int>, row: seq<Cell>, k: nat)
    ensures FittingFrom(free, row, k).Some? ==> ColumnsFit(free, row, free[FittingFrom(free, row, k).value])
    ensures FittingFrom(free, row, k).Some? ==> forall j :: k <= j < FittingFrom(free, row, k).value ==> !ColumnsFit(free, row, free[j])
    ensures FittingFrom(free, row, k).None? ==> forall j :: k <= j < |free| ==> !ColumnsFit(free, row, free[j])
    decreases |free| - k
  {
    if k < |free| && !ColumnsFit(free, row, free[k]) {
      FittingFromIsFirst(free, row, k + 1);
    }
  }

  /** try_all_free_slots(free, row): the row is placed at the first free column that passes the check; ValueError when none does. */
  function FitRow(free: seq<int>, row: seq<Cell>): Result<Placement, MphfError>
  {
    match FittingFrom(free, row, 0)
    case None => Failure(ValueError)
    case Some(k) => PlaceFirst(row, free[k])
  }

  /** The loop of try_all_free_slots over the free columns, rotating the row in place. */
  method TryAllFreeSlots(free: seq<int>, row: array<Cell>) returns (r: Result<int, MphfError>)
    modifies row
    ensures match FitRow(free, old(row[..]))
      case Success(p) => r == Success(p.shift) && row[..] == p.row
      case Failure(e) => r == Failure(e) && row[..] == old(row[..])
  {
    ghost var s := row[..];
    for k := 0 to |free|
      invariant row[..] == s
      invariant FittingFrom(free, s, k) == FittingFrom(free, s, 0)
    {
      var ok := CheckColumnsOkay(free, row[..], free[k]);
      if ok {
        r := PlaceFirstAt(row, free[k]);
        return;
      }
    }
    return Failure(ValueError);
  }

  // ---------------------------------------------------------------------------
  // Filling columns: occupied_columns and list.remove
  // ---------------------------------------------------------------------------

  /** No value occurs twice. */
  predicate Distinct(xs: seq<int>)
  {
    forall i, j :: 0 <= i < j < |xs| ==> xs[i] != xs[j]
  }

  /** The indices, from k on, whose cells hold an item, in increasing order: the generator occupied_columns. */
  function OccupiedFrom(row: seq<Cell>, k: nat): seq<int>
    decreases |row| - k
  {
    if k >= |row| then []
    else (if row[k].Some? then [k] else []) + OccupiedFrom(row, k + 1)
  }

  /** The generator yields exactly the indices from k on that hold an item, each once, in increasing order. */
  lemma {:induction false} OccupiedColumns(row: seq<Cell>, k: nat)
    ensures forall c :: c in OccupiedFrom(row, k) <==> k <= c < |row| && row[c].Some?
    ensures forall i :: 0 <= i < |OccupiedFrom(row, k)| ==> k <= OccupiedFrom(row, k)[i]
    ensures forall i, j :: 0 <= i < j < |OccupiedFrom(row, k)| ==> OccupiedFrom(row, k)[i] < OccupiedFrom(row, k)[j]
    decreases |row| - k
  {
    if k < |row| {
      OccupiedColumns(row, k + 1);
    }
  }

  /** list.remove(x): drops the first occurrence of x; ValueError when x is absent. */
  function Remove(xs: seq<int>, x: int): (r: Result<seq<int>, MphfError>)
    ensures r.Success? <==> x in xs
    ensures r.Failure? ==> r.error == ValueError
  {
    if xs == [] then Failure(ValueError)
    else if xs[0] == x then Success(xs[1..])
    else match Remove(xs[1..], x)
      case Success(rest) => Success([xs[0]] + rest)
      case Failure(e) => Failure(e)
  }

  /** Removing a value from a list without repeats leaves the other values, still without repeats. */
  lemma {:induction false} RemoveDistinct(xs: seq<int>, x: int)
    requires Distinct(xs) && x in xs
    ensures Distinct(Remove(xs, x).value)
    ensures forall y :: y in Remove(xs, x).value <==> y in xs && y != x
  {
    if xs[0] != x {
      var tail := xs[1..];
      assert Distinct(tail);
      RemoveDistinct(tail, x);
      var rest := Remove(tail, x).value;
      assert Remove(xs, x).value == [xs[0]] + rest;
      assert xs[0] !in rest by {
        assert xs[0] !in tail;
      }
    } else {
      assert xs == [x] + xs[1..];
    }
  }

  /** The removal loop: each listed column is removed in turn; the first one absent raises ValueError. */
  function RemoveAll(free: seq<int>, cols: seq<int>): Result<seq<int>, MphfError>
    decreases |cols|
  {
    if cols == [] then Success(free)
    else match Remove(free, cols[0])
      case Failure(e) => Failure(e)
      case Success(rest) => RemoveAll(rest, cols[1..])
  }

  /**
    Removing distinct columns from a list of distinct columns succeeds exactly
    when every one of them is present; what remains are the other columns.
  */
  lemma {:induction false} RemoveAllDistinct(free: seq<int>, cols: seq<int>)
    requires Distinct(free) && Distinct(cols)
    ensures RemoveAll(free, cols).Success? <==> forall c :: c in cols ==> c in free
    ensures RemoveAll(free, cols).Failure? ==> RemoveAll(free, cols).error == ValueError
    ensures RemoveAll(free, cols).Success? ==>
      Distinct(RemoveAll(free, cols).value) &&
      forall y :: y in RemoveAll(free, cols).value <==> y in free && y !in cols
    decreases |cols|
  {
    if cols != [] {
      var c, tail := cols[0], cols[1..];
      assert Distinct(tail);
      assert c !in tail;
      if c in free {
        RemoveDistinct(free, c);
        RemoveAllDistinct(Remove(free, c).value, tail);
      }
    }
  }

  /** Removing c and then the rest is removing [c] + rest. */
  lemma RemoveAllFirst(free: seq<int>, c: int, rest: seq<int>)
    ensures RemoveAll(free, [c] + rest) ==
      if Remove(free, c).Failure? then Failure(Remove(free, c).error) else RemoveAll(Remove(free, c).value, rest)
  {
    assert ([c] + rest)[0] == c && ([c] + rest)[1..] == rest;
  }

  /** The loop that removes each occupied column of the placed row from the unfilled columns. */
  method MarkFilled(columns: seq<int>, row: array<Cell>) returns (r: Result<seq<int>, MphfError>)
    ensures r == RemoveAll(columns, OccupiedFrom(row[..], 0))
  {
    var unfilled := columns;
    for index := 0 to row.Length
      invariant RemoveAll(unfilled, OccupiedFrom(row[..], index)) == RemoveAll(columns, OccupiedFrom(row[..], 0))
    {
      ghost var rest := OccupiedFrom(row[..], index + 1);
      assert OccupiedFrom(row[..], index) == (if row[index].Some? then [index] else []) + rest;
      if row[index].Some? {
        RemoveAllFirst(unfilled, index, rest);
        var removed := Remove(unfilled, index);
        if removed.Failure? {
          return Failure(removed.error);
        }
        unfilled := removed.value;
      } else {
        assert OccupiedFrom(row[..], index) == rest;
      }
    }
    return Success(unfilled);
  }

  // ---------------------------------------------------------------------------
  // The column check against the placement
  // ---------------------------------------------------------------------------

  /** Shifting a column back by c and forward again, modulo n, returns it. */
  lemma ShiftBack(j: int, c: int, n: int)
    requires 0 <= j < n && 0 <= c < n
    ensures 0 <= (j - c) % n < n && ((j - c) % n + c) % n == j
  {
    var i := if j >= c then j - c else j - c + n;
    ModWithinPeriod(j - c, n, i);
    ModWithinPeriod(i + c, n, j);
  }

  /**
    When the row's first item is at index 0, the check and the placement
    agree: after placing at a column that passed the check, every occupied
    column of the placed row is one of the free columns.
  */
  lemma CheckMatchesPlacementFromZero(free: seq<int>, row: seq<Cell>, c: int)
    requires 0 <= c < |row| && row[0].Some? && ColumnsFit(free, row, c)
    ensures PlaceFirst(row, c).Success?
    ensures forall j :: 0 <= j < |row| && PlaceFirst(row, c).value.row[j].Some? ==> j in free
  {
    var n := |row|;
    ColumnsFitMeans(free, row, c);
    FirstNonNoneAt(row, 0);
    PlaceFirstMoves(row, c);
    var p := PlaceFirst(row, c).value;
    assert p.shift == c;
    forall j | 0 <= j < n && p.row[j].Some? ensures j in free {
      var i := (j - c) % n;
      ShiftBack(j, c, n);
      assert p.row[j] == row[i];
      assert (i + c) % n in free;
    }
  }

  /** The column check on the row [None, 1, None, 2] with columns [0, 2, 3] free. */
  lemma ColumnsFitCollidingRow()
    ensures !ColumnsFit([0, 2, 3], [None, Some(1), None, Some(2)], 0)
    ensures !ColumnsFit([0, 2, 3], [None, Some(1), None, Some(2)], 2)
    ensures ColumnsFit([0, 2, 3], [None, Some(1), None, Some(2)], 3)
  {
    var row: seq<Cell> := [None, Some(1), None, Some(2)];
    assert row[1].Some? && (1 + 0) % 4 == 1;
    assert row[3].Some? && (3 + 2) % 4 == 1;
    forall i | 0 <= i < 4 && row[i].Some? ensures (i + 3) % 4 in [0, 2, 3] {
      assert i == 1 || i == 3;
      assert (1 + 3) % 4 == 0 && (3 + 3) % 4 == 2;
    }
  }

  /**
    Otherwise they disagree: check_columns_okay shifts every item by the
    column, while place_first_at moves the first item to it. Here the check
    approves column 3 of [0, 2, 3], the placement then fills columns 1 and 3,
    and removing column 1 from the unfilled columns raises ValueError.
  */
  lemma CheckApprovesCollidingPlacement()
    ensures FitRow([0, 2, 3], [None, Some(1), None, Some(2)]) == Success(Placement([None, Some(2), None, Some(1)], 2))
    ensures OccupiedFrom([None, Some(2), None, Some(1)], 0) == [1, 3]
    ensures RemoveAll([0, 2, 3], [1, 3]) == Failure(ValueError)
  {
    CollidingRowFits();
    var placed: seq<Cell> := [None, Some(2), None, Some(1)];
    assert OccupiedFrom(placed, 3) == [3];
    assert OccupiedFrom(placed, 1) == [1, 3];
  }

  /** try_all_free_slots on the colliding row: column 3 is chosen and the row rotated right by 2. */
  lemma CollidingRowFits()
    ensures FitRow([0, 2, 3], [None, Some(1), None, Some(2)]) == Success(Placement([None, Some(2), None, Some(1)], 2))
  {
    var free, row := [0, 2, 3], [None, Some(1), None, Some(2)];
    ColumnsFitCollidingRow();
    assert FittingFrom(free, row, 2) == Some(2);
    assert FittingFrom(free, row, 1) == Some(2);
    assert FittingFrom(free, row, 0) == Some(2);
    FirstNonNoneAt(row, 1);
    assert Rotated(row, -2) == [None, Some(2), None, Some(1)];
  }

  /** The column check on the row [None, 5, 6, None] with columns [2, 3] free. */
  lemma ColumnsFitMissedRow()
    ensures !ColumnsFit([2, 3], [None, Some(5), Some(6), None], 2)
    ensures !ColumnsFit([2, 3], [None, Some(5), Some(6), None], 3)
  {
    var row: seq<Cell> := [None, Some(5), Some(6), None];
    assert row[2].Some? && (2 + 2) % 4 == 0;
    assert row[1].Some? && (1 + 3) % 4 == 0;
  }

  /**
    And the check can refuse every free column although a rotation fits: with
    columns [2, 3] free, [None, 5, 6, None] passes at neither, yet placing its
    first item at column 2 would fill exactly columns 2 and 3.
  */
  lemma CheckMissesFittingPlacement()
    ensures FitRow([2, 3], [None, Some(5), Some(6), None]) == Failure(ValueError)
    ensures PlaceFirst([None, Some(5), Some(6), None], 2) == Success(Placement([None, None, Some(5), Some(6)], 1))
    ensures RemoveAll([2, 3], OccupiedFrom([None, None, Some(5), Some(6)], 0)) == Success([])
  {
    MissedRowFitsNowhere();
    MissedRowPlaces();
    MissedPlacementFills();
  }

  /** The rotated missed row fills exactly the free columns 2 and 3. */
  lemma MissedPlacementFills()
    ensures RemoveAll([2, 3], OccupiedFrom([None, None, Some(5), Some(6)], 0)) == Success([])
  {
    var placed: seq<Cell> := [None, None, Some(5), Some(6)];
    assert OccupiedFrom(placed, 3) == [3];
    assert OccupiedFrom(placed, 2) == [2, 3];
    assert OccupiedFrom(placed, 0) == [2, 3];
    assert Remove([2, 3], 2) == Success([3]);
  }

  /** place_first_at on the missed row at column 2: a right rotation by 1. */
  lemma MissedRowPlaces()
    ensures PlaceFirst([None, Some(5), Some(6), None], 2) == Success(Placement([None, None, Some(5), Some(6)], 1))
  {
    var row: seq<Cell> := [None, Some(5), Some(6), None];
    FirstNonNoneAt(row, 1);
    assert Rotated(row, -1) == [None, None, Some(5), Some(6)];
  }

  /** No free column passes the check for the missed row. */
  lemma MissedRowFitsNowhere()
    ensures FittingFrom([2, 3], [None, Some(5), Some(6), None], 0) == None
  {
    var free, row := [2, 3], [None, Some(5), Some(6), None];
    ColumnsFitMissedRow();
    assert FittingFrom(free, row, 2) == None;
    assert FittingFrom(free, row, 1) == None;
  }

  // ---------------------------------------------------------------------------
  // pair_elements and make_queue
  // ---------------------------------------------------------------------------

  /** A (row number, None count) pair of pair_elements; the row itself is matrix[number]. */
  datatype Entry = Entry(number: nat, score: nat)

  /** pair_elements over the first k rows: every row holding an item, with its None count, in row order. */
  function PairedUpTo(rows: seq<seq<Cell>>, k: nat): seq<Entry>
    requires k <= |rows|
  {
    if k == 0 then []
    else PairedUpTo(rows, k - 1) + (if NoneCount(rows[k - 1]) != |rows[k - 1]| then [Entry(k - 1, NoneCount(rows[k - 1]))] else [])
  }

  /** pair_elements(matrix). */
  function Paired(rows: seq<seq<Cell>>): seq<Entry>
  {
    PairedUpTo(rows, |rows|)
  }

  /** An entry names a row holding an item, with that row's None count. */
  predicate Names(rows: seq<seq<Cell>>, e: Entry)
  {
    e.number < |rows| && NoneCount(rows[e.number]) != |rows[e.number]| && e.score == NoneCount(rows[e.number])
  }

  /** Row numbers strictly increase along the entries. */
  predicate NumbersIncrease(es: seq<Entry>)
  {
    forall i, j :: 0 <= i < j < |es| ==> es[i].number < es[j].number
  }

  /** pair_elements lists exactly the rows holding an item, each once, in row order. */
  lemma {:induction false} PairedUpToMembers(rows: seq<seq<Cell>>, k: nat)
    requires k <= |rows|
    ensures forall e :: e in PairedUpTo(rows, k) <==> Names(rows, e) && e.number < k
    ensures NumbersIncrease(PairedUpTo(rows, k))
    ensures forall i :: 0 <= i < |PairedUpTo(rows, k)| ==> PairedUpTo(rows, k)[i].number < k
  {
    if k > 0 {
      PairedUpToMembers(rows, k - 1);
    }
  }

  /** The entries of es with score s, in their order in es. */
  function WithScore(es: seq<Entry>, s: nat): seq<Entry>
  {
    if es == [] then []
    else (if es[0].score == s then [es[0]] else []) + WithScore(es[1..], s)
  }

  /** The entries of es with lo <= score < hi, in their order in es. */
  function Between(es: seq<Entry>, lo: nat, hi: nat): seq<Entry>
  {
    if es == [] then []
    else (if lo <= es[0].score < hi then [es[0]] else []) + Between(es[1..], lo, hi)
  }

  /** The buckets for scores s, s + 1, ..., bound - 1, one after another. */
  function ByScoreFrom(es: seq<Entry>, s: nat, bound: nat): seq<Entry>
    decreases bound - s
  {
    if s >= bound then [] else WithScore(es, s) + ByScoreFrom(es, s + 1, bound)
  }

  /** One more than the largest score (0 for no entries). */
  function ScoreBound(es: seq<Entry>): (b: nat)
    ensures forall i :: 0 <= i < |es| ==> es[i].score < b
  {
    if es == [] then 0
    else
      var rest := ScoreBound(es[1..]);
      if es[0].score + 1 > rest then es[0].score + 1 else rest
  }

  /** sorted(es, key=score): a stable sort on the None count, written as one bucket per score. */
  function SortByScore(es: seq<Entry>): seq<Entry>
  {
    ByScoreFrom(es, 0, ScoreBound(es))
  }

  /** make_queue(matrix): the rows holding an item, fewest None first, ties in row order. */
  function Queue(rows: seq<seq<Cell>>): seq<Entry>
  {
    SortByScore(Paired(rows))
  }

  /** Taking score s and then scores s + 1 .. hi - 1 takes each entry of scores s .. hi - 1 once. */
  lemma {:induction false} BetweenSplits(es: seq<Entry>, s: nat, hi: nat)
    requires s < hi
    ensures multiset(WithScore(es, s)) + multiset(Between(es, s + 1, hi)) == multiset(Between(es, s, hi))
  {
    if es != [] {
      BetweenSplits(es[1..], s, hi);
    }
  }

  /** The buckets from s on hold each entry of score s .. bound - 1 once. */
  lemma {:induction false} ByScoreFromPermutes(es: seq<Entry>, s: nat, bound: nat)
    ensures multiset(ByScoreFrom(es, s, bound)) == multiset(Between(es, s, bound))
    decreases bound - s
  {
    if s >= bound {
      BetweenEmpty(es, s, bound);
    } else {
      ByScoreFromPermutes(es, s + 1, bound);
      BetweenSplits(es, s, bound);
    }
  }

  /** No score lies in an empty range. */
  lemma {:induction false} BetweenEmpty(es: seq<Entry>, lo: nat, hi: nat)
    requires hi <= lo
    ensures Between(es, lo, hi) == []
  {
    if es != [] {
      BetweenEmpty(es[1..], lo, hi);
    }
  }

  /** A range covering every score keeps every entry. */
  lemma {:induction false} BetweenAll(es: seq<Entry>, hi: nat)
    requires forall i :: 0 <= i < |es| ==> es[i].score < hi
    ensures Between(es, 0, hi) == es
  {
    if es != [] {
      BetweenAll(es[1..], hi);
    }
  }

  /** The bucket sort keeps every entry exactly as often as it occurs. */
  lemma SortByScorePermutes(es: seq<Entry>)
    ensures multiset(SortByScore(es)) == multiset(es)
  {
    ByScoreFromPermutes(es, 0, ScoreBound(es));
    BetweenAll(es, ScoreBound(es));
  }

  /** a goes before b in the queue: fewer None, or as many and an earlier row. */
  predicate Before(a: Entry, b: Entry)
  {
    a.score < b.score || (a.score == b.score && a.number < b.number)
  }

  /** Every entry goes before every later one. */
  predicate InQueueOrder(q: seq<Entry>)
  {
    forall i, j :: 0 <= i < j < |q| ==> Before(q[i], q[j])
  }

  /** A bucket holds entries of es with its score, in their order in es. */
  lemma {:induction false} WithScoreInOrder(es: seq<Entry>, s: nat)
    requires NumbersIncrease(es)
    ensures forall i :: 0 <= i < |WithScore(es, s)| ==> WithScore(es, s)[i].score == s
    ensures forall e :: e in WithScore(es, s) ==> e in es
    ensures InQueueOrder(WithScore(es, s))
  {
    if es != [] {
      assert NumbersIncrease(es[1..]);
      WithScoreInOrder(es[1..], s);
      var rest := WithScore(es[1..], s);
      forall i | 0 <= i < |rest| ensures es[0].number < rest[i].number {
        assert rest[i] in es[1..];
      }
    }
  }

  /** The buckets from s on hold entries of score at least s, in queue order. */
  lemma {:induction false} ByScoreFromInOrder(es: seq<Entry>, s: nat, bound: nat)
    requires NumbersIncrease(es)
    ensures forall i :: 0 <= i < |ByScoreFrom(es, s, bound)| ==> s <= ByScoreFrom(es, s, bound)[i].score
    ensures InQueueOrder(ByScoreFrom(es, s, bound))
    decreases bound - s
  {
    if s < bound {
      WithScoreInOrder(es, s);
      ByScoreFromInOrder(es, s + 1, bound);
      var a, b := WithScore(es, s), ByScoreFrom(es, s + 1, bound);
      assert forall i :: 0 <= i < |a + b| ==> (a + b)[i] == (if i < |a| then a[i] else b[i - |a|]);
    }
  }

  /**
    make_queue lists each row holding an item exactly once, with its None
    count, and orders them by None count, ties by row number: the order of a
    stable sort of pair_elements.
  */
  lemma QueueIsSortedPairing(rows: seq<seq<Cell>>)
    ensures forall e :: e in Queue(rows) <==> Names(rows, e)
    ensures InQueueOrder(Queue(rows))
    ensures multiset(Queue(rows)) == multiset(Paired(rows))
  {
    PairedUpToMembers(rows, |rows|);
    SortByScorePermutes(Paired(rows));
    ByScoreFromInOrder(Paired(rows), 0, ScoreBound(Paired(rows)));
    forall e ensures e in Queue(rows) <==> e in Paired(rows) {
      assert e in Queue(rows) <==> e in multiset(Queue(rows));
      assert e in Paired(rows) <==> e in multiset(Paired(rows));
    }
  }

  /** Every queue entry numbers a row of the matrix. */
  lemma QueueNumbersRows(rows: seq<seq<Cell>>)
    ensures forall k :: 0 <= k < |Queue(rows)| ==> Queue(rows)[k].number < |rows|
  {
    QueueIsSortedPairing(rows);
    forall k | 0 <= k < |Queue(rows)| ensures Queue(rows)[k].number < |rows| {
      assert Queue(rows)[k] in Queue(rows);
    }
  }

  // ---------------------------------------------------------------------------
  // The matrix: a list of rows, each a list the functions above mutate
  // ---------------------------------------------------------------------------

  /** The current contents of the matrix's rows. */
  ghost function Contents(matrix: seq<array<Cell>>): (rows: seq<seq<Cell>>)
    reads set i | 0 <= i < |matrix| :: matrix[i]
    ensures |rows| == |matrix|
    ensures forall i :: 0 <= i < |matrix| ==> rows[i] == matrix[i][..]
  {
    seq(|matrix|, i requires 0 <= i < |matrix| reads set j | 0 <= j < |matrix| :: matrix[j] => matrix[i][..])
  }

  /** No list is a row of the matrix twice. */
  predicate DistinctRows(matrix: seq<array<Cell>>)
  {
    forall i, j :: 0 <= i < j < |matrix| ==> matrix[i] != matrix[j]
  }

  /** pair_elements(matrix), collected in a list. */
  method PairElements(matrix: seq<array<Cell>>) returns (es: seq<Entry>)
    ensures es == Paired(Contents(matrix))
  {
    ghost var rows := Contents(matrix);
    es := [];
    for number := 0 to |matrix|
      invariant es == PairedUpTo(rows, number)
    {
      var score := CountNones(matrix[number][..]);
      if score != matrix[number].Length {
        es := es + [Entry(number, score)];
      }
    }
  }

  /** make_queue(matrix). */
  method MakeQueue(matrix: seq<array<Cell>>) returns (q: seq<Entry>)
    ensures q == Queue(Contents(matrix))
  {
    var es := PairElements(matrix);
    q := SortByScore(es);
  }

  /** [0] * n. */
  function Zeros(n: nat): (r: seq<int>)
    ensures |r| == n && forall i :: 0 <= i < n ==> r[i] == 0
  {
    seq(n, _ => 0)
  }

  // ---------------------------------------------------------------------------
  // rearrange_rows
  // ---------------------------------------------------------------------------

  /** The rows after rearrange_rows stopped, and what it returned or raised. */
  datatype Rearranged = Rearranged(rows: seq<seq<Cell>>, result: Result<seq<int>, MphfError>)

  /**
    The while loop of rearrange_rows from the given state on: each entry of the
    queue in turn is placed by try_all_free_slots and its occupied columns are
    removed from the free ones; the first exception ends the loop.
  */
  function RearrangeFrom(rows: seq<seq<Cell>>, r: seq<int>, free: seq<int>, queue: seq<Entry>): Rearranged
    requires |r| == |rows|
    requires forall k :: 0 <= k < |queue| ==> queue[k].number < |rows|
    decreases |queue|
  {
    if queue == [] then Rearranged(rows, Success(r))
    else
      var number := queue[0].number;
      match FitRow(free, rows[number])
      case Failure(e) => Rearranged(rows, Failure(e))
      case Success(p) =>
        var placed := rows[number := p.row];
        match RemoveAll(free, OccupiedFrom(p.row, 0))
        case Failure(e) => Rearranged(placed, Failure(e))
        case Success(unfilled) => RearrangeFrom(placed, r[number := p.shift], unfilled, queue[1..])
  }

  /** rearrange_rows(matrix): every column of the first row starts free; an empty matrix raises IndexError. */
  function Rearrange(rows: seq<seq<Cell>>): Rearranged
  {
    if rows == [] then Rearranged(rows, Failure(IndexError))
    else
      QueueNumbersRows(rows);
      RearrangeFrom(rows, Zeros(|rows|), Range(|rows[0]|), Queue(rows))
  }

  /** rearrange_rows(matrix): mutates the rows and returns the displacement vector. */
  method RearrangeRows(matrix: seq<array<Cell>>) returns (result: Result<seq<int>, MphfError>)
    requires DistinctRows(matrix)
    modifies set i | 0 <= i < |matrix| :: matrix[i]
    ensures Rearrange(old(Contents(matrix))) == Rearranged(Contents(matrix), result)
  {
    if |matrix| == 0 {
      return Failure(IndexError);
    }
    var r := Zeros(|matrix|);
    var columnsUnfilled := Range(matrix[0].Length);
    var rowQueue := MakeQueue(matrix);
    ghost var rows := old(Contents(matrix));
    QueueNumbersRows(rows);
    ghost var outcome := Rearrange(rows);
    while rowQueue != []
      invariant |r| == |rows| == |matrix|
      invariant forall i :: 0 <= i < |matrix| ==> matrix[i][..] == rows[i]
      invariant forall k :: 0 <= k < |rowQueue| ==> rowQueue[k].number < |matrix|
      invariant RearrangeFrom(rows, r, columnsUnfilled, rowQueue) == outcome
      decreases |rowQueue|
    {
      var number := rowQueue[0].number;
      rowQueue := rowQueue[1..];
      var placed;
      placed, rows := PlaceRow(matrix, columnsUnfilled, number, rows);
      if placed.Failure? {
        ContentsAre(matrix, rows);
        return Failure(placed.error);
      }
      r := r[number := placed.value.0];
      columnsUnfilled := placed.value.1;
    }
    ContentsAre(matrix, rows);
    return Success(r);
  }

  /**
    One round of the loop of rearrange_rows: try_all_free_slots rotates row
    number in place, then its occupied columns are removed from the free ones.
    Returns the displacement and the columns still free; rows' is what the
    rows then hold.
  */
  method PlaceRow(matrix: seq<array<Cell>>, free: seq<int>, number: nat, ghost rows: seq<seq<Cell>>)
    returns (res: Result<(int, seq<int>), MphfError>, ghost rows': seq<seq<Cell>>)
    requires DistinctRows(matrix) && number < |matrix| == |rows|
    requires forall i :: 0 <= i < |matrix| ==> matrix[i][..] == rows[i]
    modifies matrix[number]
    ensures |rows'| == |matrix| && forall i :: 0 <= i < |matrix| ==> matrix[i][..] == rows'[i]
    ensures match FitRow(free, rows[number])
      case Failure(e) => res == Failure(e) && rows' == rows
      case Success(p) =>
        && rows' == rows[number := p.row]
        && match RemoveAll(free, OccupiedFrom(p.row, 0))
           case Failure(e) => res == Failure(e)
           case Success(unfilled) => res == Success((p.shift, unfilled))
  {
    var limboRow := matrix[number];
    var displacement := TryAllFreeSlots(free, limboRow);
    if displacement.Failure? {
      return Failure(displacement.error), rows;
    }
    rows' := rows[number := limboRow[..]];
    var filled := MarkFilled(free, limboRow);
    if filled.Failure? {
      return Failure(filled.error), rows';
    }
    return Success((displacement.value, filled.value)), rows';
  }

  /** Rows that hold the given contents one by one hold them all. */
  lemma ContentsAre(matrix: seq<array<Cell>>, rows: seq<seq<Cell>>)
    requires |rows| == |matrix| && forall i :: 0 <= i < |matrix| ==> matrix[i][..] == rows[i]
    ensures Contents(matrix) == rows
  {
  }

  // ---------------------------------------------------------------------------
  // What a successful rearrange_rows guarantees
  // ---------------------------------------------------------------------------

  /** Every row has w cells. */
  predicate Rectangular(rows: seq<seq<Cell>>, w: nat)
  {
    forall i :: 0 <= i < |rows| ==> |rows[i]| == w
  }

  /** No column holds items of two rows. */
  predicate OneItemPerColumn(rows: seq<seq<Cell>>, w: nat)
    requires Rectangular(rows, w)
  {
    forall i, j, c :: 0 <= i < j < |rows| && 0 <= c < w ==> rows[i][c].None? || rows[j][c].None?
  }

  /** The row numbers of the queue's entries. */
  function Numbers(queue: seq<Entry>): set<int>
  {
    if queue == [] then {} else {queue[0].number} + Numbers(queue[1..])
  }

  /** No row number occurs twice in the queue. */
  predicate NumbersUnique(queue: seq<Entry>)
  {
    queue == [] || (queue[0].number !in Numbers(queue[1..]) && NumbersUnique(queue[1..]))
  }

  /**
    Row i of rows is row i of orig rotated right by r[i] columns, and no
    displacement reaches a whole row.
  */
  predicate DisplacedBy(orig: seq<seq<Cell>>, rows: seq<seq<Cell>>, r: seq<int>, w: nat)
    requires |rows| == |orig| == |r|
  {
    && (forall i :: 0 <= i < |rows| ==> rows[i] == Rotated(orig[i], -r[i]))
    && (forall i :: 0 <= i < |r| ==> -(w as int) < r[i] < w)
  }

  /** The sizes agree, every row has w > 0 cells, and the queue numbers distinct rows. */
  predicate Shaped(orig: seq<seq<Cell>>, rows: seq<seq<Cell>>, r: seq<int>, queue: seq<Entry>, w: nat)
  {
    && w > 0 && |rows| == |orig| == |r| && Rectangular(orig, w) && Rectangular(rows, w)
    && (forall k :: 0 <= k < |queue| ==> queue[k].number < |rows|)
    && NumbersUnique(queue)
  }

  /** The free columns are columns of the rows, each listed once. */
  predicate FreeColumns(free: seq<int>, w: nat)
  {
    Distinct(free) && forall c :: c in free ==> 0 <= c < w
  }

  /** Queued rows are not displaced yet, and rows without items are never queued nor displaced. */
  predicate QueuedUnplaced(orig: seq<seq<Cell>>, r: seq<int>, queue: seq<Entry>, w: nat)
    requires |r| == |orig|
  {
    && (forall i :: 0 <= i < |r| && i in Numbers(queue) ==> r[i] == 0)
    && (forall i :: 0 <= i < |r| && NoneCount(orig[i]) == w ==> r[i] == 0 && i !in Numbers(queue))
  }

  /** The rows no longer queued occupy no free column, and no two of them share a column. */
  predicate PlacedApart(rows: seq<seq<Cell>>, free: seq<int>, queue: seq<Entry>, w: nat)
    requires Rectangular(rows, w)
  {
    && (forall i, c :: 0 <= i < |rows| && i !in Numbers(queue) && 0 <= c < w && rows[i][c].Some? ==> c !in free)
    && (forall i, j, c :: 0 <= i < j < |rows| && i !in Numbers(queue) && j !in Numbers(queue) && 0 <= c < w ==>
          rows[i][c].None? || rows[j][c].None?)
  }

  /**
    The invariant of the loop of rearrange_rows for the original rows orig:
    the rows are displaced as r says; queued rows are untouched; rows without
    items are never queued; and the rows already placed occupy no free column
    and share no column.
  */
  predicate LoopInvariant(orig: seq<seq<Cell>>, rows: seq<seq<Cell>>, r: seq<int>, free: seq<int>, queue: seq<Entry>, w: nat)
  {
    && Shaped(orig, rows, r, queue, w)
    && FreeColumns(free, w)
    && DisplacedBy(orig, rows, r, w)
    && QueuedUnplaced(orig, r, queue, w)
    && PlacedApart(rows, free, queue, w)
  }

  /** A number of the queue is the number of one of its entries. */
  lemma {:induction false} NumbersOf(queue: seq<Entry>)
    ensures forall k :: 0 <= k < |queue| ==> queue[k].number in Numbers(queue)
    ensures forall i :: i in Numbers(queue) ==> exists k :: 0 <= k < |queue| && queue[k].number == i
  {
    if queue != [] {
      NumbersOf(queue[1..]);
      forall i | i in Numbers(queue) ensures exists k :: 0 <= k < |queue| && queue[k].number == i {
        if i != queue[0].number {
          var k :| 0 <= k < |queue[1..]| && queue[1..][k].number == i;
          assert queue[k + 1].number == i;
        }
      }
    }
  }

  /** Entries naming rows, in queue order, never repeat a row number. */
  lemma {:induction false} OrderedNamesUnique(rows: seq<seq<Cell>>, queue: seq<Entry>)
    requires InQueueOrder(queue) && forall e :: e in queue ==> Names(rows, e)
    ensures NumbersUnique(queue)
  {
    if queue != [] {
      var tail := queue[1..];
      assert InQueueOrder(tail) by {
        forall i, j | 0 <= i < j < |tail| ensures Before(tail[i], tail[j]) {
          assert Before(queue[i + 1], queue[j + 1]);
        }
      }
      OrderedNamesUnique(rows, tail);
      NumbersOf(tail);
      forall k | 0 <= k < |tail|
        ensures tail[k].number != queue[0].number
      {
        assert Before(queue[0], queue[k + 1]);
        assert queue[0] in queue && queue[k + 1] in queue;
      }
    }
  }

  /** The queue's row numbers are exactly those of the rows holding an item. */
  lemma QueueNumbersAreItemRows(rows: seq<seq<Cell>>)
    ensures forall i :: i in Numbers(Queue(rows)) <==> 0 <= i < |rows| && NoneCount(rows[i]) != |rows[i]|
  {
    var queue := Queue(rows);
    QueueIsSortedPairing(rows);
    NumbersOf(queue);
    forall i | i in Numbers(queue) ensures 0 <= i < |rows| && NoneCount(rows[i]) != |rows[i]| {
      var k :| 0 <= k < |queue| && queue[k].number == i;
      assert queue[k] in queue;
    }
    forall i | 0 <= i < |rows| && NoneCount(rows[i]) != |rows[i]| ensures i in Numbers(queue) {
      var e := Entry(i, NoneCount(rows[i]));
      assert Names(rows, e);
      var k :| 0 <= k < |queue| && queue[k] == e;
    }
  }

  /** The loop invariant holds when the loop of rearrange_rows starts. */
  lemma LoopInvariantHoldsInitially(rows: seq<seq<Cell>>, w: nat)
    requires w > 0 && |rows| > 0 && Rectangular(rows, w)
    ensures LoopInvariant(rows, rows, Zeros(|rows|), Range(|rows[0]|), Queue(rows), w)
  {
    var queue := Queue(rows);
    var r := Zeros(|rows|);
    QueueNumbersRows(rows);
    QueueIsSortedPairing(rows);
    OrderedNamesUnique(rows, queue);
    QueueNumbersAreItemRows(rows);
    forall i | 0 <= i < |rows| ensures rows[i] == Rotated(rows[i], -r[i]) {
      RotatedZero(rows[i]);
    }
    assert Shaped(rows, rows, r, queue, w);
    assert FreeColumns(Range(|rows[0]|), w);
    assert DisplacedBy(rows, rows, r, w);
    assert QueuedUnplaced(rows, r, queue, w);
    assert PlacedApart(rows, Range(|rows[0]|), queue, w);
  }

  /** A placement is the row rotated right by the returned displacement. */
  lemma PlaceFirstRotates(row: seq<Cell>, n: int)
    requires PlaceFirst(row, n).Success?
    ensures PlaceFirst(row, n).value.row == Rotated(row, -PlaceFirst(row, n).value.shift)
  {
    RotatedZero(row);
  }

  /** Placing the queued row number as the rotation p keeps the displacement record. */
  lemma DisplacedStep(orig: seq<seq<Cell>>, rows: seq<seq<Cell>>, r: seq<int>, number: nat, p: Placement, w: nat)
    requires |rows| == |orig| == |r| && number < |rows| && DisplacedBy(orig, rows, r, w) && r[number] == 0
    requires p.row == Rotated(rows[number], -p.shift) && -(w as int) < p.shift < w
    ensures DisplacedBy(orig, rows[number := p.row], r[number := p.shift], w)
  {
    RotatedZero(orig[number]);
  }

  /** Taking the head of the queue and displacing its row keeps the queued rows undisplaced. */
  lemma QueuedStep(orig: seq<seq<Cell>>, r: seq<int>, queue: seq<Entry>, shift: int, w: nat)
    requires |r| == |orig| && queue != [] && queue[0].number < |r| && NumbersUnique(queue)
    requires QueuedUnplaced(orig, r, queue, w)
    ensures QueuedUnplaced(orig, r[queue[0].number := shift], queue[1..], w)
  {
    assert Numbers(queue) == {queue[0].number} + Numbers(queue[1..]);
  }

  /**
    Placing the head row of the queue on free columns only, and removing those
    columns from the free ones, keeps the placed rows apart.
  */
  lemma PlacedStep(rows: seq<seq<Cell>>, free: seq<int>, queue: seq<Entry>, placed: seq<Cell>, cols: seq<int>, unfilled: seq<int>, w: nat)
    requires Rectangular(rows, w) && |placed| == w && queue != [] && queue[0].number < |rows|
    requires PlacedApart(rows, free, queue, w)
    requires forall c :: 0 <= c < w && placed[c].Some? ==> c in cols
    requires forall c :: c in cols ==> c in free
    requires forall c :: c in unfilled ==> c in free && c !in cols
    ensures Rectangular(rows[queue[0].number := placed], w)
    ensures PlacedApart(rows[queue[0].number := placed], unfilled, queue[1..], w)
  {
    var number := queue[0].number;
    var rows': seq<seq<Cell>> := rows[number := placed];
    assert Numbers(queue) == {number} + Numbers(queue[1..]);
    forall i, c | 0 <= i < |rows'| && i !in Numbers(queue[1..]) && 0 <= c < w && rows'[i][c].Some?
      ensures c !in unfilled
    {
    }
    forall i, j, c | 0 <= i < j < |rows'| && i !in Numbers(queue[1..]) && j !in Numbers(queue[1..]) && 0 <= c < w
      ensures rows'[i][c].None? || rows'[j][c].None?
    {
      if i == number && placed[c].Some? {
        assert c in free;
      } else if j == number && placed[c].Some? {
        assert c in free;
      }
    }
  }

  /** A row of w cells fitted into free columns is the row rotated by less than a whole row. */
  lemma FitRowRotates(free: seq<int>, row: seq<Cell>, p: Placement, w: nat)
    requires FreeColumns(free, w) && |row| == w
    requires FitRow(free, row) == Success(p)
    ensures p.row == Rotated(row, -p.shift) && -(w as int) < p.shift < w && |p.row| == w
  {
    var n := free[FittingFrom(free, row, 0).value];
    assert FitRow(free, row) == PlaceFirst(row, n);
    assert n in free;
    PlaceFirstPutsFirstAt(row, n);
    PlaceFirstRotates(row, n);
  }

  /**
    Fitting a row of w cells into the free columns rotates it by less than a
    whole row, puts its items in free columns only, and leaves the other free
    columns, each once.
  */
  lemma FitStep(free: seq<int>, row: seq<Cell>, p: Placement, unfilled: seq<int>, w: nat)
    requires FreeColumns(free, w) && |row| == w
    requires FitRow(free, row) == Success(p)
    requires RemoveAll(free, OccupiedFrom(p.row, 0)) == Success(unfilled)
    ensures p.row == Rotated(row, -p.shift) && -(w as int) < p.shift < w && |p.row| == w
    ensures forall c :: 0 <= c < w && p.row[c].Some? ==> c in OccupiedFrom(p.row, 0)
    ensures forall c :: c in OccupiedFrom(p.row, 0) ==> c in free
    ensures forall c :: c in unfilled ==> c in free && c !in OccupiedFrom(p.row, 0)
    ensures FreeColumns(unfilled, w)
  {
    FitRowRotates(free, row, p, w);
    OccupiedColumns(p.row, 0);
    RemoveAllDistinct(free, OccupiedFrom(p.row, 0));
  }

  /** One round of the loop of rearrange_rows that raises nothing keeps the loop invariant. */
  lemma LoopInvariantStep(orig: seq<seq<Cell>>, rows: seq<seq<Cell>>, r: seq<int>, free: seq<int>, queue: seq<Entry>, w: nat,
                          p: Placement, unfilled: seq<int>)
    requires LoopInvariant(orig, rows, r, free, queue, w) && queue != []
    requires FitRow(free, rows[queue[0].number]) == Success(p)
    requires RemoveAll(free, OccupiedFrom(p.row, 0)) == Success(unfilled)
    ensures LoopInvariant(orig, rows[queue[0].number := p.row], r[queue[0].number := p.shift], unfilled, queue[1..], w)
  {
    var number := queue[0].number;
    FitStep(free, rows[number], p, unfilled, w);
    DisplacedStep(orig, rows, r, number, p, w);
    QueuedStep(orig, r, queue, p.shift, w);
    PlacedStep(rows, free, queue, p.row, OccupiedFrom(p.row, 0), unfilled, w);
    assert Numbers(queue) == {number} + Numbers(queue[1..]);
    assert Shaped(orig, rows[number := p.row], r[number := p.shift], queue[1..], w);
  }

  /** The loop of rearrange_rows, once it ends without an exception, leaves the rows displaced as it says and apart. */
  lemma {:induction false} RearrangeFromSound(orig: seq<seq<Cell>>, rows: seq<seq<Cell>>, r: seq<int>, free: seq<int>, queue: seq<Entry>, w: nat)
    requires LoopInvariant(orig, rows, r, free, queue, w)
    ensures var out := RearrangeFrom(rows, r, free, queue);
      out.result.Success? ==>
        && |out.rows| == |orig| == |out.result.value| && Rectangular(out.rows, w)
        && DisplacedBy(orig, out.rows, out.result.value, w)
        && (forall i :: 0 <= i < |orig| && NoneCount(orig[i]) == w ==> out.result.value[i] == 0)
        && OneItemPerColumn(out.rows, w)
    decreases |queue|
  {
    if queue != [] {
      var number := queue[0].number;
      var fit := FitRow(free, rows[number]);
      if fit.Success? && RemoveAll(free, OccupiedFrom(fit.value.row, 0)).Success? {
        LoopInvariantStep(orig, rows, r, free, queue, w, fit.value, RemoveAll(free, OccupiedFrom(fit.value.row, 0)).value);
        RearrangeFromSound(orig, rows[number := fit.value.row], r[number := fit.value.shift],
          RemoveAll(free, OccupiedFrom(fit.value.row, 0)).value, queue[1..], w);
      }
    }
  }

  /** What a successful rearrange_rows leaves: rows of w cells, each the grid's row displaced by r, with one item per column. */
  predicate Settled(grid: seq<seq<Cell>>, rows: seq<seq<Cell>>, r: seq<int>, w: nat)
  {
    && w > 0 && |grid| == |rows| == |r| && Rectangular(grid, w) && Rectangular(rows, w)
    && (forall i, c :: 0 <= i < |rows| && 0 <= c < w ==> rows[i][c] == grid[i][(c - r[i]) % w])
    && (forall i :: 0 <= i < |r| ==> -(w as int) < r[i] < w)
    && OneItemPerColumn(rows, w)
  }

  /**
    A successful rearrange_rows on a matrix whose rows all have w > 0 cells
    rotates each row right by its entry of the displacement vector (less than
    a whole row, and 0 for a row without items), and leaves no column with
    items of two rows.
  */
  lemma RearrangeIsSound(rows: seq<seq<Cell>>, w: nat)
    requires w > 0 && Rectangular(rows, w) && Rearrange(rows).result.Success?
    ensures Settled(rows, Rearrange(rows).rows, Rearrange(rows).result.value, w)
    ensures forall i :: 0 <= i < |rows| && NoneCount(rows[i]) == w ==> Rearrange(rows).result.value[i] == 0
  {
    RearrangeSettles(rows, w);
    SettledOf(rows, Rearrange(rows).rows, Rearrange(rows).result.value, w);
  }

  /** Rows displaced by r with one item per column are settled. */
  lemma SettledOf(orig: seq<seq<Cell>>, rows: seq<seq<Cell>>, r: seq<int>, w: nat)
    requires w > 0 && |rows| == |orig| == |r| && Rectangular(orig, w) && Rectangular(rows, w)
    requires DisplacedBy(orig, rows, r, w) && OneItemPerColumn(rows, w)
    ensures Settled(orig, rows, r, w)
  {
    DisplacedPointwise(orig, rows, r, w);
  }

  /** Rows displaced by r, cell by cell. */
  lemma DisplacedPointwise(orig: seq<seq<Cell>>, rows: seq<seq<Cell>>, r: seq<int>, w: nat)
    requires w > 0 && |rows| == |orig| == |r| && Rectangular(orig, w) && DisplacedBy(orig, rows, r, w)
    ensures forall i, c :: 0 <= i < |rows| && 0 <= c < w ==> rows[i][c] == orig[i][(c - r[i]) % w]
  {
    forall i, c | 0 <= i < |rows| && 0 <= c < w
      ensures rows[i][c] == orig[i][(c - r[i]) % w]
    {
      var row, d := orig[i], r[i];
      assert rows[i] == Rotated(row, -d);
      RotatedAt(row, -d, c);
      assert |row| == w && c + -d == c - d;
    }
  }

  /** RearrangeIsSound with each row's displacement stated as a rotation. */
  lemma RearrangeSettles(rows: seq<seq<Cell>>, w: nat)
    requires w > 0 && Rectangular(rows, w) && Rearrange(rows).result.Success?
    ensures |Rearrange(rows).rows| == |rows| == |Rearrange(rows).result.value| && Rectangular(Rearrange(rows).rows, w)
    ensures DisplacedBy(rows, Rearrange(rows).rows, Rearrange(rows).result.value, w)
    ensures forall i :: 0 <= i < |rows| && NoneCount(rows[i]) == w ==> Rearrange(rows).result.value[i] == 0
    ensures OneItemPerColumn(Rearrange(rows).rows, w)
  {
    LoopInvariantHoldsInitially(rows, w);
    RearrangeFromSound(rows, rows, Zeros(|rows|), Range(|rows[0]|), Queue(rows), w);
  }

  /** The removal loop raises nothing but ValueError. */
  lemma {:induction false} RemoveAllFailsWithValueError(free: seq<int>, cols: seq<int>)
    ensures RemoveAll(free, cols).Failure? ==> RemoveAll(free, cols).error == ValueError
    decreases |cols|
  {
    if cols != [] && Remove(free, cols[0]).Success? {
      RemoveAllFailsWithValueError(Remove(free, cols[0]).value, cols[1..]);
    }
  }

  /** The loop of rearrange_rows raises nothing but ValueError. */
  lemma {:induction false} RearrangeFromFailsWithValueError(rows: seq<seq<Cell>>, r: seq<int>, free: seq<int>, queue: seq<Entry>)
    requires |r| == |rows| && forall k :: 0 <= k < |queue| ==> queue[k].number < |rows|
    ensures RearrangeFrom(rows, r, free, queue).result.Failure? ==> RearrangeFrom(rows, r, free, queue).result.error == ValueError
    decreases |queue|
  {
    if queue != [] {
      var number := queue[0].number;
      var fit := FitRow(free, rows[number]);
      if fit.Success? {
        var cols := OccupiedFrom(fit.value.row, 0);
        RemoveAllFailsWithValueError(free, cols);
        if RemoveAll(free, cols).Success? {
          RearrangeFromFailsWithValueError(rows[number := fit.value.row], r[number := fit.value.shift],
            RemoveAll(free, cols).value, queue[1..]);
        }
      }
    }
  }

  /** rearrange_rows raises IndexError exactly on an empty matrix, and ValueError in every other failure. */
  lemma RearrangeFailures(rows: seq<seq<Cell>>)
    ensures Rearrange(rows).result == Failure(IndexError) <==> rows == []
    ensures rows != [] && Rearrange(rows).result.Failure? ==> Rearrange(rows).result.error == ValueError
  {
    if rows != [] {
      QueueNumbersRows(rows);
      RearrangeFromFailsWithValueError(rows, Zeros(|rows|), Range(|rows[0]|), Queue(rows));
    }
  }

  // ---------------------------------------------------------------------------
  // square_array
  // ---------------------------------------------------------------------------

  /** An n-by-n grid of None. */
  function EmptyRows(n: nat): (rows: seq<seq<Cell>>)
    ensures |rows| == n && Rectangular(rows, n)
    ensures forall i, j :: 0 <= i < n && 0 <= j < n ==> rows[i][j].None?
  {
    seq(n, _ => seq(n, _ => None))
  }

  /** square_array(n): n new lists of n Nones; ValueError unless n > 0. */
  method SquareArray(n: int) returns (r: Result<seq<array<Cell>>, MphfError>)
    ensures r.Failure? <==> n <= 0
    ensures r.Failure? ==> r.error == ValueError
    ensures r.Success? ==>
      && |r.value| == n && DistinctRows(r.value)
      && (forall i :: 0 <= i < n ==> fresh(r.value[i]))
      && Contents(r.value) == EmptyRows(n)
  {
    if n <= 0 {
      return Failure(ValueError);
    }
    var rows: seq<array<Cell>> := [];
    for i := 0 to n
      invariant |rows| == i && DistinctRows(rows)
      invariant forall j :: 0 <= j < i ==> fresh(rows[j]) && rows[j][..] == EmptyRows(n)[j]
    {
      var row := new Cell[n](_ => None);
      rows := rows + [row];
    }
    ContentsAre(rows, EmptyRows(n));
    return Success(rows);
  }

  // ---------------------------------------------------------------------------
  // choose_non_none and the flattening of step 4
  // ---------------------------------------------------------------------------

  /** choose_non_none(array, column) from row k on: the first item in the column; ValueError when there is none. */
  function ColumnItemFrom(rows: seq<seq<Cell>>, column: int, k: nat): Result<int, MphfError>
    decreases |rows| - k
  {
    if k >= |rows| then Failure(ValueError)
    else match PyIndex(column, |rows[k]|)
      case None => Failure(IndexError)
      case Some(j) => if rows[k][j].Some? then Success(rows[k][j].value) else ColumnItemFrom(rows, column, k + 1)
  }

  /** choose_non_none(array, column). */
  function ColumnItem(rows: seq<seq<Cell>>, column: int): Result<int, MphfError>
  {
    ColumnItemFrom(rows, column, 0)
  }

  /**
    In a column of every row, choose_non_none from row k on returns the item
    of the first row holding one there, and raises ValueError exactly when no
    row does.
  */
  lemma {:induction false} ColumnItemFromIsTopmost(rows: seq<seq<Cell>>, column: int, k: nat, w: nat)
    requires Rectangular(rows, w) && 0 <= column < w
    ensures ColumnItemFrom(rows, column, k).Failure? <==> forall i :: k <= i < |rows| ==> rows[i][column].None?
    ensures ColumnItemFrom(rows, column, k).Failure? ==> ColumnItemFrom(rows, column, k).error == ValueError
    ensures forall i :: k <= i < |rows| && rows[i][column].Some? && (forall j :: k <= j < i ==> rows[j][column].None?) ==>
      ColumnItemFrom(rows, column, k) == Success(rows[i][column].value)
    decreases |rows| - k
  {
    if k < |rows| {
      ColumnItemFromIsTopmost(rows, column, k + 1, w);
    }
  }

  /** choose_non_none: a loop down the rows of the column. */
  method ChooseNonNone(matrix: seq<array<Cell>>, column: int) returns (r: Result<int, MphfError>)
    ensures r == ColumnItem(Contents(matrix), column)
  {
    ghost var rows := Contents(matrix);
    for row := 0 to |matrix|
      invariant ColumnItemFrom(rows, column, row) == ColumnItem(rows, column)
    {
      var j := PyIndex(column, matrix[row].Length);
      if j.None? {
        return Failure(IndexError);
      }
      var item := matrix[row][j.value];
      if item.Some? {
        return Success(item.value);
      }
    }
    return Failure(ValueError);
  }

  /** [choose_non_none(arr, c) for c in xrange(i, w)]: the first exception ends the list. */
  function FlattenFrom(rows: seq<seq<Cell>>, i: nat, w: nat): Result<seq<int>, MphfError>
    decreases w - i
  {
    if i >= w then Success([])
    else match ColumnItem(rows, i)
      case Failure(e) => Failure(e)
      case Success(item) =>
        match FlattenFrom(rows, i + 1, w)
        case Failure(e) => Failure(e)
        case Success(rest) => Success([item] + rest)
  }

  /** Step 4 of make_hash: one item per column of the first row's width; IndexError on an empty matrix. */
  function Flatten(rows: seq<seq<Cell>>): Result<seq<int>, MphfError>
  {
    if rows == [] then Failure(IndexError) else FlattenFrom(rows, 0, |rows[0]|)
  }

  /** The flattened list holds, column by column, what choose_non_none returns; it is built exactly when every column has an item to give. */
  lemma {:induction false} FlattenFromMeans(rows: seq<seq<Cell>>, i: nat, w: nat)
    requires i <= w
    ensures FlattenFrom(rows, i, w).Success? <==> forall c :: i <= c < w ==> ColumnItem(rows, c).Success?
    ensures FlattenFrom(rows, i, w).Success? ==>
      && |FlattenFrom(rows, i, w).value| == w - i
      && forall c :: i <= c < w ==> FlattenFrom(rows, i, w).value[c - i] == ColumnItem(rows, c).value
    decreases w - i
  {
    if i < w {
      FlattenFromMeans(rows, i + 1, w);
      if FlattenFrom(rows, i, w).Success? {
        var rest := FlattenFrom(rows, i + 1, w).value;
        assert FlattenFrom(rows, i, w).value == [ColumnItem(rows, i).value] + rest;
      }
    }
  }

  /** The list comprehension of step 4 as a loop. */
  method FlattenRows(matrix: seq<array<Cell>>) returns (r: Result<seq<int>, MphfError>)
    ensures r == Flatten(Contents(matrix))
  {
    if |matrix| == 0 {
      return Failure(IndexError);
    }
    ghost var rows := Contents(matrix);
    var w := matrix[0].Length;
    var result: seq<int> := [];
    assert FlattenFrom(rows, 0, w).Success? ==> [] + FlattenFrom(rows, 0, w).value == FlattenFrom(rows, 0, w).value;
    for i := 0 to w
      invariant FlattenFrom(rows, i, w).Failure? ==> FlattenFrom(rows, 0, w) == FlattenFrom(rows, i, w)
      invariant FlattenFrom(rows, i, w).Success? ==> FlattenFrom(rows, 0, w) == Success(result + FlattenFrom(rows, i, w).value)
    {
      var item := ChooseNonNone(matrix, i);
      if item.Failure? {
        return Failure(item.error);
      }
      assert FlattenFrom(rows, i + 1, w).Success? ==>
        result + FlattenFrom(rows, i, w).value == (result + [item.value]) + FlattenFrom(rows, i + 1, w).value;
      result := result + [item.value];
    }
    assert result + [] == result;
    return Success(result);
  }

  // ---------------------------------------------------------------------------
  // make_hash
  // ---------------------------------------------------------------------------

  /** The dictionary make_hash returns: side t, displacement vector r, flattened result and offset. */
  datatype HashParams = HashParams(t: nat, r: seq<int>, result: seq<int>, offset: int)

  /** min(items). */
  function SeqMin(xs: seq<int>): (m: int)
    requires xs != []
    ensures m in xs && forall x :: x in xs ==> m <= x
  {
    if |xs| == 1 then xs[0]
    else
      var rest := SeqMin(xs[1..]);
      assert forall x :: x in xs ==> x == xs[0] || x in xs[1..];
      if xs[0] <= rest then xs[0] else rest
  }

  /** max(items). */
  function SeqMax(xs: seq<int>): (m: int)
    requires xs != []
    ensures m in xs && forall x :: x in xs ==> x <= m
  {
    if |xs| == 1 then xs[0]
    else
      var rest := SeqMax(xs[1..]);
      assert forall x :: x in xs ==> x == xs[0] || x in xs[1..];
      if xs[0] >= rest then xs[0] else rest
  }

  /** t is the ceiling of the square root of m. */
  predicate IsCeilSqrt(t: nat, m: int)
  {
    t * t >= m && (t == 0 || (t - 1) * (t - 1) < m)
  }

  /** The least s >= t whose square reaches m. */
  function CeilSqrtFrom(m: nat, t: nat): (s: nat)
    requires t == 0 || (t - 1) * (t - 1) < m
    ensures s * s >= m && (s == 0 || (s - 1) * (s - 1) < m)
    decreases m - t
  {
    if t * t >= m then t
    else
      assert t <= t * t;
      CeilSqrtFrom(m, t + 1)
  }

  /** int(ceil(sqrt(m))) in exact arithmetic: the least t with t * t >= m. */
  function CeilSqrt(m: nat): (t: nat)
    ensures t * t >= m && (t == 0 || (t - 1) * (t - 1) < m)
  {
    CeilSqrtFrom(m, 0)
  }

  /** The offset make_hash adds to every item: minus the least one when minimizing. */
  function Offset(items: seq<int>, minimize: bool): int
    requires items != []
  {
    if minimize then 0 - SeqMin(items) else 0
  }

  /** frozenset(x + offset for x in items). */
  function Keys(items: seq<int>, offset: int): set<int>
  {
    set x | x in items :: x + offset
  }

  /** Step 2 of make_hash for keys that are not negative: key k sits at row k / t, column k mod t of a t-by-t grid. */
  function Grid(keys: set<int>, t: nat): (rows: seq<seq<Cell>>)
    ensures |rows| == t && Rectangular(rows, t)
  {
    seq(t, x => seq(t, y => if x * t + y in keys then Some(x * t + y) else None))
  }

  /**
    Every key is non-negative: with minimize, or when no item is negative. No
    two keys then share a cell of the grid, so the order in which the
    frozenset is iterated does not matter.
  */
  predicate OrderIndependent(items: seq<int>, minimize: bool)
  {
    minimize || forall x :: x in items ==> 0 <= x
  }

  /** The side of make_hash's square: ceil(sqrt(max(items) + offset)). */
  function Side(items: seq<int>, minimize: bool): (t: nat)
    requires items != [] && OrderIndependent(items, minimize)
    ensures IsCeilSqrt(t, SeqMax(items) + Offset(items, minimize))
  {
    CeilSqrt(SeqMax(items) + Offset(items, minimize))
  }

  /**
    make_hash(items, minimize) for keys that are not negative (with minimize
    they never are): ValueError for no items, then the rest from the keys.
  */
  function MakeHashSpec(items: seq<int>, minimize: bool): Result<HashParams, MphfError>
    requires OrderIndependent(items, minimize)
  {
    if items == [] then Failure(ValueError)
    else HashOfKeys(Keys(items, Offset(items, minimize)), Side(items, minimize), Offset(items, minimize), minimize)
  }

  /** make_hash from the side t on: ValueError for a side of 0, IndexError when a key's row lies outside the grid. */
  function HashOfKeys(keys: set<int>, t: nat, offset: int, minimize: bool): Result<HashParams, MphfError>
  {
    if t == 0 then Failure(ValueError)
    else if exists k :: k in keys && PyIndex(k / t, t).None? then Failure(IndexError)
    else HashOfGrid(Grid(keys, t), t, offset, minimize)
  }

  /** make_hash from the filled grid on: rearrange_rows, the flattening, and NameError at the return when offset was never bound. */
  function HashOfGrid(grid: seq<seq<Cell>>, t: nat, offset: int, minimize: bool): Result<HashParams, MphfError>
  {
    var out := Rearrange(grid);
    match out.result
    case Failure(e) => Failure(e)
    case Success(r) =>
      match Flatten(out.rows)
      case Failure(e) => Failure(e)
      case Success(result) => if minimize then Success(HashParams(t, r, result, offset)) else Failure(NameError)
  }

  /** A multiple of t other than 0 is at least t away from 0. */
  lemma {:induction false} MultipleAtLeast(a: int, t: int)
    requires t > 0 && a != 0
    ensures a * t >= t || a * t <= -t
    decreases if a < 0 then -a else a
  {
    if a > 1 {
      MultipleAtLeast(a - 1, t);
      assert a * t == (a - 1) * t + t;
    } else if a < -1 {
      MultipleAtLeast(a + 1, t);
      assert a * t == (a + 1) * t - t;
    }
  }

  /** For 0 <= y < t, x * t + y is the key k exactly at k's own row and column. */
  lemma CellOfKey(k: int, t: nat, x: int, y: int)
    requires t > 0 && 0 <= y < t
    ensures x * t + y == k <==> x == k / t && y == k % t
  {
    var q, m := k / t, k % t;
    assert k == q * t + m;
    if x * t + y == k {
      assert (x - q) * t == x * t - q * t;
      if x != q {
        MultipleAtLeast(x - q, t);
      }
    }
  }

  /** Placing one more key fills exactly its own cell of the grid. */
  lemma GridAdd(keys: set<int>, k: int, t: nat)
    requires t > 0 && 0 <= k && k / t < t
    ensures Grid(keys + {k}, t) == Grid(keys, t)[k / t := Grid(keys, t)[k / t][k % t := Some(k)]]
  {
    var g, g' := Grid(keys, t), Grid(keys + {k}, t);
    var h := g[k / t := g[k / t][k % t := Some(k)]];
    forall x | 0 <= x < t ensures g'[x] == h[x] {
      forall y | 0 <= y < t ensures g'[x][y] == h[x][y] {
        CellOfKey(k, t, x, y);
      }
    }
  }

  /** With no keys the grid is empty. */
  lemma GridOfNoKeys(t: nat)
    ensures Grid({}, t) == EmptyRows(t)
  {
    forall x | 0 <= x < t ensures Grid({}, t)[x] == EmptyRows(t)[x] {
    }
  }

  /** The keys are not negative when minimizing, nor when no item is. */
  lemma KeysNotNegative(items: seq<int>, minimize: bool)
    requires items != [] && OrderIndependent(items, minimize)
    ensures forall k :: k in Keys(items, Offset(items, minimize)) ==> 0 <= k
  {
  }

  /** arr[i][j] = v on a matrix whose rows are distinct lists. */
  method SetCell(arr: seq<array<Cell>>, i: nat, j: nat, v: Cell)
    requires DistinctRows(arr) && i < |arr| && j < arr[i].Length
    modifies arr[i]
    ensures Contents(arr) == old(Contents(arr))[i := old(Contents(arr))[i][j := v]]
  {
    ghost var before := Contents(arr);
    arr[i][j] := v;
    ContentsAre(arr, before[i := before[i][j := v]]);
  }

  /**
    The body of step 2 of make_hash for one key: arr[k / t][k % t] = k, the
    row being a Python index; false, with nothing written, when that row is
    outside the grid. A non-negative key is added to the grid of the keys
    placed before it.
  */
  method PlaceKey(arr: seq<array<Cell>>, t: nat, item: int, ghost placed: set<int>) returns (inside: bool)
    requires t > 0 && |arr| == t && DistinctRows(arr) && forall i :: 0 <= i < t ==> arr[i].Length == t
    modifies set i | 0 <= i < |arr| :: arr[i]
    ensures inside <==> PyIndex(item / t, t).Some?
    ensures !inside ==> Contents(arr) == old(Contents(arr))
    ensures inside && 0 <= item && old(Contents(arr)) == Grid(placed, t) ==> Contents(arr) == Grid(placed + {item}, t)
  {
    var row := PyIndex(item / t, t);
    inside := row.Some?;
    if inside {
      ghost var before := Contents(arr);
      SetCell(arr, row.value, item % t, Some(item));
      KeyCellInGrid(before, placed, item, t, row.value);
    }
  }

  /** Writing a non-negative key into its cell of the grid of the keys placed before it gives the grid with the key added. */
  lemma KeyCellInGrid(before: seq<seq<Cell>>, placed: set<int>, item: int, t: nat, i: nat)
    requires t > 0 && PyIndex(item / t, t) == Some(i)
    ensures 0 <= item && before == Grid(placed, t) ==>
      before[i := before[i][item % t := Some(item)]] == Grid(placed + {item}, t)
  {
    if 0 <= item && before == Grid(placed, t) {
      GridAdd(placed, item, t);
    }
  }

  /**
    Step 2 of make_hash: each key in turn, in the frozenset's iteration order,
    is written to row k / t (a Python index) and column k mod t; IndexError
    when some key's row is outside the grid.
  */
  method PlaceItems(arr: seq<array<Cell>>, keys: set<int>, t: nat) returns (r: Result<(), MphfError>)
    requires t > 0 && |arr| == t && DistinctRows(arr) && Contents(arr) == EmptyRows(t)
    modifies set i | 0 <= i < |arr| :: arr[i]
    ensures r.Failure? <==> exists k :: k in keys && PyIndex(k / t, t).None?
    ensures r.Failure? ==> r.error == IndexError
    ensures r.Success? && (forall k :: k in keys ==> 0 <= k) ==> Contents(arr) == Grid(keys, t)
  {
    ghost var nonNegative := forall k :: k in keys ==> 0 <= k;
    GridOfNoKeys(t);
    var unplaced := keys;
    assert keys - unplaced == {};
    while unplaced != {}
      invariant unplaced <= keys
      invariant forall i :: 0 <= i < t ==> arr[i].Length == t
      invariant forall k :: k in keys - unplaced ==> PyIndex(k / t, t).Some?
      invariant nonNegative ==> Contents(arr) == Grid(keys - unplaced, t)
      decreases unplaced
    {
      NonEmptyHasMember(unplaced);
      var item :| item in unplaced;
      var inside := PlaceKey(arr, t, item, keys - unplaced);
      if !inside {
        assert item in keys;
        return Failure(IndexError);
      }
      assert (keys - unplaced) + {item} == keys - (unplaced - {item});
      unplaced := unplaced - {item};
    }
    assert keys - unplaced == keys;
    return Success(());
  }

  /**
    make_hash: the items are placed in a fresh square grid, then the rows are
    rearranged and the grid flattened.
  */
  method MakeHash(items: seq<int>, minimize: bool) returns (res: Result<HashParams, MphfError>)
    ensures !minimize ==> res.Failure?
    ensures OrderIndependent(items, minimize) ==> res == MakeHashSpec(items, minimize)
  {
    if items == [] {
      return Failure(ValueError);
    }
    ghost var exact := OrderIndependent(items, minimize);
    var offset := 0;
    if minimize {
      offset := 0 - SeqMin(items);
    }
    var keys := set x | x in items :: x + offset;
    var top := SeqMax(items) + offset;
    if top < 0 {
      return Failure(ValueError);
    }
    var t := CeilSqrt(top);
    ghost var spec := HashOfKeys(keys, t, offset, minimize);
    assert offset == Offset(items, minimize);
    assert keys == Keys(items, offset);
    if exact {
      assert t == Side(items, minimize);
      assert MakeHashSpec(items, minimize) == spec;
    }
    var square := SquareArray(t);
    if square.Failure? {
      return Failure(square.error);
    }
    var arr := square.value;
    var placed := PlaceItems(arr, keys, t);
    if placed.Failure? {
      return Failure(placed.error);
    }
    if exact {
      KeysNotNegative(items, minimize);
      assert spec == HashOfGrid(Contents(arr), t, offset, minimize);
    }
    var displacement := RearrangeRows(arr);
    if displacement.Failure? {
      return Failure(displacement.error);
    }
    var result := FlattenRows(arr);
    if result.Failure? {
      return Failure(result.error);
    }
    if !minimize {
      return Failure(NameError);
    }
    return Success(HashParams(t, displacement.value, result.value, offset));
  }

  // ---------------------------------------------------------------------------
  // What make_hash guarantees
  // ---------------------------------------------------------------------------

  /**
    The slot of key k: its column k mod t moved by the displacement of its row
    k / t, wrapped around as rearrange_rows rotates the rows.
  */
  function Slot(k: int, t: nat, r: seq<int>): (c: int)
    requires t > 0 && 0 <= k && k / t < |r|
    ensures 0 <= c < t
  {
    (k % t + r[k / t]) % t
  }

  /** The cells of the grid hold exactly the keys, each at its own row and column. */
  lemma GridHoldsKeys(keys: set<int>, t: nat, x: int, y: int)
    requires t > 0 && 0 <= x < t && 0 <= y < t
    ensures Grid(keys, t)[x][y].Some? <==> x * t + y in keys
    ensures Grid(keys, t)[x][y].Some? ==> var k := Grid(keys, t)[x][y].value;
      k == x * t + y && 0 <= k && k / t == x && k % t == y
  {
    if Grid(keys, t)[x][y].Some? {
      var k := x * t + y;
      CellOfKey(k, t, x, y);
      assert 0 <= k by {
        if x > 0 {
          MultipleAtLeast(x, t);
        }
      }
    }
  }

  /** Undoing a displacement -t < d < t of a column 0 <= y < t. */
  lemma UnshiftColumn(y: int, d: int, t: nat)
    requires 0 <= y < t && -(t as int) < d < t
    ensures ((y + d) % t - d) % t == y
  {
    var c := (y + d) % t;
    if y + d < 0 {
      ModWithinPeriod(y + d, t, y + d + t);
    } else if y + d < t {
      ModWithinPeriod(y + d, t, y + d);
    } else {
      ModWithinPeriod(y + d, t, y + d - t);
    }
    ModWithinPeriod(c - d, t, y);
  }

  /** Displacing a column 0 <= c < t back by d and then forward again. */
  lemma ReshiftColumn(c: int, d: int, t: nat)
    requires 0 <= c < t && -(t as int) < d < t
    ensures ((c - d) % t + d) % t == c
  {
    var y := (c - d) % t;
    if c - d < 0 {
      ModWithinPeriod(c - d, t, c - d + t);
    } else if c - d < t {
      ModWithinPeriod(c - d, t, c - d);
    } else {
      ModWithinPeriod(c - d, t, c - d - t);
    }
    ModWithinPeriod(y + d, t, c);
  }

  /** In a grid with one item per column, the column's item is the one choose_non_none returns. */
  lemma OnlyItemIsChosen(rows: seq<seq<Cell>>, w: nat, i: int, c: int)
    requires Rectangular(rows, w) && OneItemPerColumn(rows, w)
    requires 0 <= i < |rows| && 0 <= c < w && rows[i][c].Some?
    ensures ColumnItem(rows, c) == Success(rows[i][c].value)
  {
    ColumnItemFromIsTopmost(rows, c, 0, w);
    assert forall j :: 0 <= j < i ==> rows[j][c].None?;
  }

  /** A column choose_non_none takes an item from holds that item in some row. */
  lemma ChosenItemIsInARow(rows: seq<seq<Cell>>, w: nat, c: int) returns (i: int)
    requires Rectangular(rows, w) && OneItemPerColumn(rows, w)
    requires 0 <= c < w && ColumnItem(rows, c).Success?
    ensures 0 <= i < |rows| && rows[i][c] == Some(ColumnItem(rows, c).value)
  {
    ColumnItemFromIsTopmost(rows, c, 0, w);
    i :| 0 <= i < |rows| && rows[i][c].Some?;
    OnlyItemIsChosen(rows, w, i, c);
  }

  /** Every key is what choose_non_none takes from the key's slot. */
  lemma KeyAtSlot(keys: set<int>, t: nat, rows: seq<seq<Cell>>, r: seq<int>, k: int)
    requires Settled(Grid(keys, t), rows, r, t)
    requires k in keys && 0 <= k && k / t < t
    ensures ColumnItem(rows, Slot(k, t, r)) == Success(k)
  {
    var x, y := k / t, k % t;
    GridHoldsKeys(keys, t, x, y);
    CellOfKey(k, t, x, y);
    var c := Slot(k, t, r);
    UnshiftColumn(y, r[x], t);
    assert rows[x][c] == Grid(keys, t)[x][y];
    OnlyItemIsChosen(rows, t, x, c);
  }

  /** Whatever choose_non_none takes from a column is a key whose slot that column is. */
  lemma SlotOfChosen(keys: set<int>, t: nat, rows: seq<seq<Cell>>, r: seq<int>, c: int)
    requires Settled(Grid(keys, t), rows, r, t)
    requires 0 <= c < t && ColumnItem(rows, c).Success?
    ensures ColumnItem(rows, c).value in keys && 0 <= ColumnItem(rows, c).value && ColumnItem(rows, c).value / t < t
    ensures Slot(ColumnItem(rows, c).value, t, r) == c
  {
    var i := ChosenItemIsInARow(rows, t, c);
    var y := (c - r[i]) % t;
    assert rows[i][c] == Grid(keys, t)[i][y];
    GridHoldsKeys(keys, t, i, y);
    ReshiftColumn(c, r[i], t);
  }

  /**
    A perfect hash of the keys: r holds a displacement -t < r[x] < t for every
    row, every key is found at its slot of the list, and every slot of the
    list holds the key whose slot it is.
  */
  predicate Perfect(keys: set<int>, h: HashParams)
  {
    && h.t > 0 && |h.r| == h.t && |h.result| == h.t
    && (forall x :: 0 <= x < h.t ==> -(h.t as int) < h.r[x] < h.t)
    && (forall k :: k in keys ==> 0 <= k && k / h.t < h.t && h.result[Slot(k, h.t, h.r)] == k)
    && (forall c :: 0 <= c < h.t ==> h.result[c] in keys && 0 <= h.result[c] && h.result[c] / h.t < h.t && Slot(h.result[c], h.t, h.r) == c)
  }

  /** make_hash from the keys on, when it succeeds, returns a perfect hash of the keys with the given side and offset. */
  lemma HashOfKeysIsPerfect(keys: set<int>, t: nat, offset: int, minimize: bool)
    requires forall k :: k in keys ==> 0 <= k
    requires HashOfKeys(keys, t, offset, minimize).Success?
    ensures minimize && HashOfKeys(keys, t, offset, minimize).value.t == t
    ensures HashOfKeys(keys, t, offset, minimize).value.offset == offset
    ensures Perfect(keys, HashOfKeys(keys, t, offset, minimize).value)
  {
    var grid := Grid(keys, t);
    var out := Rearrange(grid);
    RearrangeIsSound(grid, t);
    var r := out.result.value;
    FlattenFromMeans(out.rows, 0, t);
    var result := Flatten(out.rows).value;
    assert HashOfKeys(keys, t, offset, minimize) == Success(HashParams(t, r, result, offset));
    forall k | k in keys
      ensures k / t < t && result[Slot(k, t, r)] == k
    {
      assert PyIndex(k / t, t).Some?;
      KeyAtSlot(keys, t, out.rows, r, k);
      var c := Slot(k, t, r);
      assert result[c] == ColumnItem(out.rows, c).value;
    }
    forall c | 0 <= c < t
      ensures result[c] in keys && result[c] / t < t && Slot(result[c], t, r) == c
    {
      SlotOfChosen(keys, t, out.rows, r, c);
    }
  }

  /**
    make_hash(items), when it returns: a perfect hash of the keys x + offset
    of the items, with offset minus the least item, on a square whose side t
    has t * t at least the largest key. As the list has t slots and keys and
    slots correspond one to one, the hash is also minimal.
  */
  lemma MakeHashIsPerfect(items: seq<int>, minimize: bool)
    requires OrderIndependent(items, minimize) && MakeHashSpec(items, minimize).Success?
    ensures items != [] && minimize
    ensures MakeHashSpec(items, minimize).value.offset == Offset(items, minimize) == 0 - SeqMin(items)
    ensures Perfect(Keys(items, Offset(items, minimize)), MakeHashSpec(items, minimize).value)
    ensures MakeHashSpec(items, minimize).value.t * MakeHashSpec(items, minimize).value.t >= SeqMax(items) + Offset(items, minimize)
  {
    var offset := Offset(items, minimize);
    var keys := Keys(items, offset);
    var t := Side(items, minimize);
    MakeHashSpecOf(items, minimize);
    KeysNotNegative(items, minimize);
    HashOfKeysIsPerfect(keys, t, offset, minimize);
  }

  // ---------------------------------------------------------------------------
  // How make_hash fails
  // ---------------------------------------------------------------------------

  /** The flattening of a rectangular matrix raises nothing but ValueError. */
  lemma {:induction false} FlattenFromFailsWithValueError(rows: seq<seq<Cell>>, i: nat, w: nat)
    requires Rectangular(rows, w) && i <= w
    ensures FlattenFrom(rows, i, w).Failure? ==> FlattenFrom(rows, i, w).error == ValueError
    decreases w - i
  {
    if i < w {
      ColumnItemFromIsTopmost(rows, i, 0, w);
      FlattenFromFailsWithValueError(rows, i + 1, w);
    }
  }

  /**
    From a filled square grid on, make_hash raises NameError exactly when
    offset was never bound and the rest would have returned; anything else
    it raises is ValueError.
  */
  lemma HashOfGridFailures(grid: seq<seq<Cell>>, t: nat, offset: int, minimize: bool)
    requires t > 0 && |grid| == t && Rectangular(grid, t)
    ensures HashOfGrid(grid, t, offset, minimize) == Failure(NameError) <==> !minimize && HashOfGrid(grid, t, offset, true).Success?
    ensures HashOfGrid(grid, t, offset, minimize).Failure? && HashOfGrid(grid, t, offset, minimize).error != NameError ==>
      HashOfGrid(grid, t, offset, minimize).error == ValueError
  {
    RearrangeFailures(grid);
    if Rearrange(grid).result.Success? {
      RearrangeIsSound(grid, t);
      FlattenFromFailsWithValueError(Rearrange(grid).rows, 0, t);
    }
  }

  /** Squares do not decrease. */
  lemma {:induction false} SquareMonotone(a: nat, b: nat)
    requires a <= b
    ensures a * a <= b * b
    decreases b - a
  {
    if a < b {
      SquareMonotone(a, b - 1);
      assert b * b == (b - 1) * (b - 1) + 2 * b - 1;
    }
  }

  /** ceil(sqrt(s * s)) is s. */
  lemma CeilSqrtOfSquare(s: nat)
    ensures CeilSqrt(s * s) == s
  {
    var t := CeilSqrt(s * s);
    if t < s {
      SquareMonotone(t, s - 1);
      SquareMonotone(s - 1, s);
    } else if t > s {
      SquareMonotone(s, t - 1);
    }
  }

  /** A key below t * t lies in a row of the t-by-t grid. */
  lemma RowInGrid(k: int, t: nat)
    requires t > 0 && 0 <= k < t * t
    ensures 0 <= k / t < t
  {
    var q := k / t;
    assert k == q * t + k % t;
  }

  /** Every key lies between 0 and max(items) + offset, which is itself a key. */
  lemma KeysUpToTop(items: seq<int>, minimize: bool)
    requires items != [] && OrderIndependent(items, minimize)
    ensures SeqMax(items) + Offset(items, minimize) in Keys(items, Offset(items, minimize))
    ensures forall k :: k in Keys(items, Offset(items, minimize)) ==> 0 <= k <= SeqMax(items) + Offset(items, minimize)
  {
    KeysNotNegative(items, minimize);
    var offset := Offset(items, minimize);
    forall k | k in Keys(items, offset)
      ensures k <= SeqMax(items) + offset
    {
      ItemOfKey(items, offset, k);
    }
    KeyOfItem(items, offset, SeqMax(items));
  }

  /** Every item's key is a key. */
  lemma KeyOfItem(items: seq<int>, offset: int, x: int)
    requires x in items
    ensures x + offset in Keys(items, offset)
  {
  }

  /** Every key is an item's key. */
  lemma ItemOfKey(items: seq<int>, offset: int, k: int)
    requires k in Keys(items, offset)
    ensures k - offset in items
  {
  }

  /** MakeHashSpec on items that are not empty. */
  lemma MakeHashSpecOf(items: seq<int>, minimize: bool)
    requires items != [] && OrderIndependent(items, minimize)
    ensures MakeHashSpec(items, minimize)
      == HashOfKeys(Keys(items, Offset(items, minimize)), Side(items, minimize), Offset(items, minimize), minimize)
  {
  }

  /**
    From the keys on, with top the largest key and t its ceiled square root:
    ValueError when top is 0, IndexError exactly when top is t * t,
    NameError exactly when minimize is off and the rest would have returned,
    and never AssertionError.
  */
  lemma HashOfKeysFailures(keys: set<int>, t: nat, top: int, offset: int, minimize: bool)
    requires top in keys && forall k :: k in keys ==> 0 <= k <= top
    requires IsCeilSqrt(t, top)
    ensures top == 0 ==> HashOfKeys(keys, t, offset, minimize) == Failure(ValueError)
    ensures HashOfKeys(keys, t, offset, minimize) == Failure(IndexError) <==> 0 < top == t * t
    ensures HashOfKeys(keys, t, offset, minimize) == Failure(NameError) <==> !minimize && HashOfKeys(keys, t, offset, true).Success?
    ensures HashOfKeys(keys, t, offset, minimize) != Failure(AssertionError)
  {
    if top == 0 {
      assert t == 0;
    } else if top == t * t {
      CellOfKey(top, t, t, 0);
      assert PyIndex(top / t, t).None?;
    } else {
      assert top < t * t;
      forall k | k in keys
        ensures PyIndex(k / t, t).Some?
      {
        RowInGrid(k, t);
      }
      HashOfGridFailures(Grid(keys, t), t, offset, minimize);
      HashOfGridFailures(Grid(keys, t), t, offset, true);
    }
  }

  /** HashOfKeysFailures for ValueError alone. */
  lemma HashOfKeysValueError(keys: set<int>, t: nat, top: int, offset: int, minimize: bool)
    requires top in keys && forall k :: k in keys ==> 0 <= k <= top
    requires IsCeilSqrt(t, top) && top == 0
    ensures HashOfKeys(keys, t, offset, minimize) == Failure(ValueError)
  {
    HashOfKeysFailures(keys, t, top, offset, minimize);
  }

  /** HashOfKeysFailures for AssertionError alone. */
  lemma HashOfKeysNoAssertionError(keys: set<int>, t: nat, top: int, offset: int, minimize: bool)
    requires top in keys && forall k :: k in keys ==> 0 <= k <= top
    requires IsCeilSqrt(t, top)
    ensures HashOfKeys(keys, t, offset, minimize) != Failure(AssertionError)
  {
    HashOfKeysFailures(keys, t, top, offset, minimize);
  }

  /** HashOfKeysFailures for IndexError alone. */
  lemma HashOfKeysIndexError(keys: set<int>, t: nat, top: int, offset: int, minimize: bool)
    requires top in keys && forall k :: k in keys ==> 0 <= k <= top
    requires IsCeilSqrt(t, top)
    ensures HashOfKeys(keys, t, offset, minimize) == Failure(IndexError) <==> 0 < top == t * t
  {
    HashOfKeysFailures(keys, t, top, offset, minimize);
  }

  /** HashOfKeysFailures for NameError alone. */
  lemma HashOfKeysNameError(keys: set<int>, t: nat, top: int, offset: int, minimize: bool)
    requires top in keys && forall k :: k in keys ==> 0 <= k <= top
    requires IsCeilSqrt(t, top)
    ensures HashOfKeys(keys, t, offset, minimize) == Failure(NameError) <==> !minimize && HashOfKeys(keys, t, offset, true).Success?
  {
    HashOfKeysFailures(keys, t, top, offset, minimize);
  }

  /**
    When every key is non-negative, make_hash on some items raises ValueError
    when max(items) + offset is 0 (with minimize: all items equal): the grid
    has side 0.
  */
  lemma MakeHashValueError(items: seq<int>, minimize: bool)
    requires items != [] && OrderIndependent(items, minimize)
    requires SeqMax(items) + Offset(items, minimize) == 0
    ensures MakeHashSpec(items, minimize) == Failure(ValueError)
  {
    MakeHashSpecOf(items, minimize);
    KeysUpToTop(items, minimize);
    HashOfKeysValueError(Keys(items, Offset(items, minimize)), Side(items, minimize),
      SeqMax(items) + Offset(items, minimize), Offset(items, minimize), minimize);
  }

  /** When every key is non-negative, make_hash never fails its assertion. */
  lemma MakeHashNoAssertionError(items: seq<int>, minimize: bool)
    requires items != [] && OrderIndependent(items, minimize)
    ensures MakeHashSpec(items, minimize) != Failure(AssertionError)
  {
    MakeHashSpecOf(items, minimize);
    KeysUpToTop(items, minimize);
    HashOfKeysNoAssertionError(Keys(items, Offset(items, minimize)), Side(items, minimize),
      SeqMax(items) + Offset(items, minimize), Offset(items, minimize), minimize);
  }

  /**
    When every key is non-negative, make_hash raises IndexError exactly when
    max(items) + offset is a positive perfect square: the largest key then
    falls one row below the grid.
  */
  lemma MakeHashIndexError(items: seq<int>, minimize: bool)
    requires items != [] && OrderIndependent(items, minimize)
    ensures MakeHashSpec(items, minimize) == Failure(IndexError) <==>
      0 < SeqMax(items) + Offset(items, minimize) == Side(items, minimize) * Side(items, minimize)
  {
    MakeHashSpecOf(items, minimize);
    KeysUpToTop(items, minimize);
    HashOfKeysIndexError(Keys(items, Offset(items, minimize)), Side(items, minimize),
      SeqMax(items) + Offset(items, minimize), Offset(items, minimize), minimize);
  }

  /**
    When every key is non-negative, make_hash raises NameError exactly when
    minimize is off and it would otherwise have returned: offset is bound
    only when minimizing.
  */
  lemma MakeHashNameError(items: seq<int>, minimize: bool)
    requires items != [] && OrderIndependent(items, minimize)
    ensures MakeHashSpec(items, minimize) == Failure(NameError) <==>
      !minimize && HashOfKeys(Keys(items, Offset(items, minimize)), Side(items, minimize), Offset(items, minimize), true).Success?
  {
    MakeHashSpecOf(items, minimize);
    KeysUpToTop(items, minimize);
    HashOfKeysNameError(Keys(items, Offset(items, minimize)), Side(items, minimize),
      SeqMax(items) + Offset(items, minimize), Offset(items, minimize), minimize);
  }

  /** make_hash raises IndexError when max(items) + offset is the square of a positive number. */
  lemma SquareTopRaisesIndexError(items: seq<int>, minimize: bool, s: nat)
    requires items != [] && OrderIndependent(items, minimize)
    requires s > 0 && SeqMax(items) + Offset(items, minimize) == s * s
    ensures MakeHashSpec(items, minimize) == Failure(IndexError)
  {
    CeilSqrtOfSquare(s);
    MakeHashIndexError(items, minimize);
  }

  /**
    For items whose least one is 0, make_hash(items, minimize=False) raises
    NameError exactly when make_hash(items) returns.
  */
  lemma UnminimizedRaisesNameError(items: seq<int>)
    requires items != [] && SeqMin(items) == 0
    ensures MakeHashSpec(items, false) == Failure(NameError) <==> MakeHashSpec(items, true).Success?
  {
    assert OrderIndependent(items, false);
    MakeHashNameError(items, false);
    assert Offset(items, true) == Offset(items, false) == 0;
    var keys, t := Keys(items, 0), Side(items, false);
    assert Side(items, true) == t;
    MakeHashSpecOf(items, true);
    assert MakeHashSpec(items, true) == HashOfKeys(keys, t, 0, true);
    assert HashOfKeys(Keys(items, Offset(items, false)), Side(items, false), Offset(items, false), true) == HashOfKeys(keys, t, 0, true);
  }
}

