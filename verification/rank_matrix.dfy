/** The two preprocessing transforms applied when an engine is built:
    reversing each man's list into a pop-from-the-end stack, and inverting
    each woman's list into a rank table. Both fail (the source panics on an
    `assert_eq!` or an out-of-bounds index) when the matrix is malformed. */
module RankMatrix {
  import opened Wrappers
  import opened Perm

  /** Every row of `rows` has length `n`. */
  predicate RowsHaveLength(rows: seq<seq<nat>>, n: nat) {
    forall k :: 0 <= k < |rows| ==> |rows[k]| == n
  }

  /** Reverses every row, failing on the first row whose length is not `n`. */
  function ReverseRows(rows: seq<seq<nat>>, n: nat): (r: Option<seq<seq<nat>>>)
    ensures r.Some? <==> RowsHaveLength(rows, n)
    ensures r.Some? ==> |r.value| == |rows|
    ensures r.Some? ==> forall k :: 0 <= k < |rows| ==> r.value[k] == Reverse(rows[k])
  {
    if |rows| == 0 then Some([])
    else if |rows[0]| != n then None
    else match ReverseRows(rows[1..], n)
      case None => None
      case Some(rest) => Some([Reverse(rows[0])] + rest)
  }

  /** The men's lists as stacks: the i-th preferred woman of man m sits at
      index N-1-i, so that the best remaining woman is the last element. */
  function MakeMenPreferences(p: seq<seq<nat>>): (r: Option<seq<seq<nat>>>)
    ensures r.Some? <==> RowsHaveLength(p, |p|)
    ensures r.Some? ==> |r.value| == |p|
    ensures r.Some? ==> forall m, i :: 0 <= m < |p| && 0 <= i < |p| ==>
      |r.value[m]| == |p| && r.value[m][|p| - 1 - i] == p[m][i]
  {
    ReverseRows(p, |p|)
  }

  /** Reversing each stack back gives the men's original lists. */
  lemma MenPreferencesUndo(p: seq<seq<nat>>)
    requires RowsHaveLength(p, |p|)
    ensures forall m :: 0 <= m < |p| ==> Reverse(MakeMenPreferences(p).value[m]) == p[m]
  {
    forall m | 0 <= m < |p|
      ensures Reverse(MakeMenPreferences(p).value[m]) == p[m]
    {
      assert MakeMenPreferences(p).value[m] == Reverse(p[m]);
      ReverseTwice(p[m]);
    }
  }

  /** No write among positions `i+1 .. k-1` of the inversion loop targets the
      index that position `i` writes. */
  ghost predicate LastWrite(src: seq<nat>, k: nat, i: nat)
    requires i < k <= |src|
  {
    forall j :: i < j < k ==> src[j] != src[i]
  }

  /** None of the first `k` writes of the inversion loop targets index `x`. */
  ghost predicate Unwritten(src: seq<nat>, k: nat, x: nat)
    requires k <= |src|
  {
    forall j :: 0 <= j < k ==> src[j] != x
  }

  /** The row after the first `k` iterations of the in-place loop
      `line[src[idx]] := idx`, which reads `src` from an unmodified copy;
      `None` once a write index is out of bounds. The result is described for
      every input, not only permutations: the last write to an index wins and
      an index never written keeps its original value. */
  function Scatter(src: seq<nat>, k: nat): (r: Option<seq<nat>>)
    requires k <= |src|
    ensures r.Some? <==> forall i :: 0 <= i < k ==> src[i] < |src|
    ensures r.Some? ==> |r.value| == |src|
    ensures r.Some? ==> forall i :: 0 <= i < k && LastWrite(src, k, i) ==> r.value[src[i]] == i
    ensures r.Some? ==> forall x :: 0 <= x < |src| && Unwritten(src, k, x) ==> r.value[x] == src[x]
  {
    if k == 0 then Some(src)
    else match Scatter(src, k - 1)
      case None => None
      case Some(line) =>
        if src[k - 1] < |line| then Some(line[src[k - 1] := k - 1]) else None
  }

  /** One row of the women's transform: the whole inversion loop. */
  function InvertRow(row: seq<nat>): Option<seq<nat>> {
    Scatter(row, |row|)
  }

  /** Inverts every row, failing on the first row whose length is not `n` or
      that holds an index out of bounds. */
  function InvertRows(rows: seq<seq<nat>>, n: nat): (r: Option<seq<seq<nat>>>)
    ensures r.Some? <==> forall k :: 0 <= k < |rows| ==> |rows[k]| == n && InRange(rows[k], n)
    ensures r.Some? ==> |r.value| == |rows|
    ensures r.Some? ==> forall k :: 0 <= k < |rows| ==> InvertRow(rows[k]) == Some(r.value[k])
  {
    if |rows| == 0 then Some([])
    else if |rows[0]| != n then None
    else match InvertRow(rows[0])
      case None => None
      case Some(r0) =>
        match InvertRows(rows[1..], n)
        case None => None
        case Some(rest) => Some([r0] + rest)
  }

  /** The women's lists as rank tables: `r[w][m]` is the rank of man m in
      woman w's list. */
  function MakeWomenPreferences(p: seq<seq<nat>>): (r: Option<seq<seq<nat>>>)
    ensures r.Some? <==> forall w :: 0 <= w < |p| ==> |p[w]| == |p| && InRange(p[w], |p|)
    ensures r.Some? ==> |r.value| == |p|
    ensures r.Some? ==> forall w :: 0 <= w < |p| ==> InvertRow(p[w]) == Some(r.value[w])
  {
    InvertRows(p, |p|)
  }

  /** Inverting a permutation yields its inverse permutation: the entry at the
      index of each element is that element's position, i.e. its rank. */
  lemma InvertPermutation(row: seq<nat>)
    requires IsPermutation(row)
    ensures InvertRow(row).Some?
    ensures IsPermutation(InvertRow(row).value)
    ensures forall i :: 0 <= i < |row| ==> InvertRow(row).value[row[i]] == i
    ensures forall x :: 0 <= x < |row| ==> InvertRow(row).value[x] == Position(row, x)
  {
    var n := |row|;
    var inv := InvertRow(row).value;
    forall i | 0 <= i < n
      ensures inv[row[i]] == i
    {
      assert LastWrite(row, n, i);
    }
    forall x | 0 <= x < n
      ensures inv[x] == Position(row, x) && inv[x] < n
    {
      PermutationCovers(row, x);
      var i := Position(row, x);
      PositionOfElement(row, i);
    }
    forall a, b | 0 <= a < b < n
      ensures inv[a] != inv[b]
    {
      PermutationCovers(row, a);
      PermutationCovers(row, b);
    }
  }

  /** Inverting a permutation twice gives back the original list. */
  lemma InvertTwice(row: seq<nat>)
    requires IsPermutation(row)
    ensures InvertRow(InvertRow(row).value) == Some(row)
  {
    InvertPermutation(row);
    var inv := InvertRow(row).value;
    InvertPermutation(inv);
    var back := InvertRow(inv).value;
    forall x | 0 <= x < |row|
      ensures back[x] == row[x]
    {
      assert inv[row[x]] == x;
    }
    assert back == row;
  }

  /** On a well-formed matrix of women's lists the transform succeeds and
      every row becomes the table of ranks: `r[w][p[w][idx]] == idx`. */
  lemma WomenPreferencesAreRanks(p: seq<seq<nat>>)
    requires IsPrefMatrix(p)
    ensures MakeWomenPreferences(p).Some?
    ensures forall w, idx :: 0 <= w < |p| && 0 <= idx < |p| ==>
      MakeWomenPreferences(p).value[w][p[w][idx]] == idx
    ensures forall w, m :: 0 <= w < |p| && 0 <= m < |p| ==>
      MakeWomenPreferences(p).value[w][m] == Position(p[w], m)
    ensures forall w :: 0 <= w < |p| ==> IsPermutation(MakeWomenPreferences(p).value[w])
  {
    var r := MakeWomenPreferences(p);
    forall w | 0 <= w < |p|
      ensures |p[w]| == |p| && InRange(p[w], |p|)
    {
    }
    forall w | 0 <= w < |p|
      ensures InvertRow(p[w]) == Some(r.value[w])
      ensures IsPermutation(r.value[w])
      ensures forall idx :: 0 <= idx < |p| ==> r.value[w][p[w][idx]] == idx
      ensures forall m :: 0 <= m < |p| ==> r.value[w][m] == Position(p[w], m)
    {
      InvertPermutation(p[w]);
    }
  }
}
