/** The VLA transformer: each row of bits is cut into consecutive groups of k
    bits and every group is reduced to the unsigned integer it denotes. */
module Vla {
  import opened Bits

  /** What transform_to_vla needs of its arguments: at least one row (row 0 fixes
      the length), a positive group size, and rows of bits at least as long as row 0. */
  predicate Admissible(smiles: seq<seq<char>>, k: int)
  {
    |smiles| >= 1 && k >= 1 &&
    forall i :: 0 <= i < |smiles| ==> IsBitString(smiles[i]) && |smiles[i]| >= |smiles[0]|
  }

  /** A group index j < length / k addresses a whole group inside the first length bits. */
  lemma GroupFits(length: nat, k: nat, j: nat)
    requires k >= 1 && j < length / k
    ensures (j + 1) * k <= length
  {
    var q := length / k;
    assert q * k + length % k == length;
    ScaleMonotone(j + 1, q, k);
  }

  lemma ScaleMonotone(a: int, b: int, k: nat)
    requires a <= b
    ensures a * k <= b * k
  {
  }

  /** The bit group j of a row: the characters [j * k, (j + 1) * k). */
  function Group(row: seq<char>, k: nat, j: nat): (g: seq<char>)
    requires k >= 1 && (j + 1) * k <= |row|
    ensures |g| == k
  {
    row[j * k .. (j + 1) * k]
  }

  /** One row of the matrix: the values of the groups 0 .. length / k - 1 of row. */
  function RowValues(row: seq<char>, length: nat, k: nat): (values: seq<int>)
    requires k >= 1 && length <= |row| && IsBitString(row)
    ensures |values| == length / k
    ensures forall j :: 0 <= j < |values| ==> 0 <= values[j] < Pow2(k)
  {
    seq(length / k, j requires 0 <= j < length / k =>
      GroupFits(length, k, j); BinValue(Group(row, k, j)))
  }

  /** The matrix transform_to_vla produces, as a value: |smiles| rows of
      |smiles[0]| / k cells, cell (i, j) holding the value of group j of row i. */
  function VlaMatrix(smiles: seq<seq<char>>, k: int): (m: seq<seq<int>>)
    requires Admissible(smiles, k)
    ensures |m| == |smiles|
    ensures forall i :: 0 <= i < |m| ==> |m[i]| == |smiles[0]| / k
    ensures forall i, j :: 0 <= i < |m| && 0 <= j < |m[i]| ==> 0 <= m[i][j] < Pow2(k)
  {
    seq(|smiles|, i requires 0 <= i < |smiles| => RowValues(smiles[i], |smiles[0]|, k))
  }

  /** Cell (i, j) is the big-endian value of its group, and it is 0 exactly when the
      group is all '0', whether data or padding. */
  lemma VlaCell(smiles: seq<seq<char>>, k: int, i: nat, j: nat)
    requires Admissible(smiles, k) && i < |smiles| && j < |smiles[0]| / k
    ensures (j + 1) * k <= |smiles[i]|
    ensures VlaMatrix(smiles, k)[i][j] == BinValue(smiles[i][j * k .. (j + 1) * k])
    ensures VlaMatrix(smiles, k)[i][j] == 0 <==> AllZero(smiles[i][j * k .. (j + 1) * k])
  {
    GroupFits(|smiles[0]|, k, j);
  }

  /** bits = [bit if bit >= 0 else 2 for bit in bits]: negative bits become the sentinel 2. */
  function MarkUnknown(bits: seq<int>): (r: seq<int>)
    ensures |r| == |bits|
    ensures forall p :: 0 <= p < |r| ==> r[p] >= 0 && (bits[p] >= 0 ==> r[p] == bits[p])
  {
    seq(|bits|, p requires 0 <= p < |bits| => if bits[p] >= 0 then bits[p] else 2)
  }

  /** bits = [0 if bit == 2 else bit for bit in bits]: the sentinel 2 becomes 0. */
  function ClearUnknown(bits: seq<int>): (r: seq<int>)
    ensures |r| == |bits|
    ensures forall p :: 0 <= p < |r| ==> r[p] != 2 && (bits[p] != 2 ==> r[p] == bits[p])
  {
    seq(|bits|, p requires 0 <= p < |bits| => if bits[p] == 2 then 0 else bits[p])
  }

  /** On bits that are 0 or 1 both sentinel rewrites leave the list as it is, so the
      recomputed sum equals the first one. */
  lemma SentinelsIdentity(bits: seq<int>)
    requires AllBinary(bits)
    ensures MarkUnknown(bits) == bits
    ensures ClearUnknown(MarkUnknown(bits)) == bits
  {
  }

  /** transform_to_vla: a zero matrix of |smiles| x (|smiles[0]| / k), filled cell by cell;
      a group whose first sum is 0 is skipped and keeps the default 0. */
  method TransformToVla(smiles: seq<seq<char>>, k: int) returns (vlaSmiles: array2<int>)
    requires Admissible(smiles, k)
    ensures fresh(vlaSmiles)
    ensures vlaSmiles.Length0 == |smiles| && vlaSmiles.Length1 == |smiles[0]| / k
    ensures forall i, j :: 0 <= i < vlaSmiles.Length0 && 0 <= j < vlaSmiles.Length1 ==>
      vlaSmiles[i, j] == VlaMatrix(smiles, k)[i][j]
  {
    var numSamples := |smiles|;
    var sequenceLength := |smiles[0]|;
    vlaSmiles := new int[numSamples, sequenceLength / k]((_, _) => 0);
    ghost var expected := VlaMatrix(smiles, k);

    for i1 := 0 to numSamples
      invariant forall r, c :: 0 <= r < i1 && 0 <= c < sequenceLength / k ==> vlaSmiles[r, c] == expected[r][c]
      invariant forall r, c :: i1 <= r < numSamples && 0 <= c < sequenceLength / k ==> vlaSmiles[r, c] == 0
    {
      for i := 0 to sequenceLength / k
        invariant forall r, c :: 0 <= r < i1 && 0 <= c < sequenceLength / k ==> vlaSmiles[r, c] == expected[r][c]
        invariant forall c :: 0 <= c < i ==> vlaSmiles[i1, c] == expected[i1][c]
        invariant forall r, c :: i1 <= r < numSamples && 0 <= c < sequenceLength / k && (r > i1 || c >= i) ==> vlaSmiles[r, c] == 0
      {
        GroupFits(sequenceLength, k, i);
        var group := smiles[i1][i * k .. (i + 1) * k];
        var bits := BitValues(group);
        bits := MarkUnknown(bits);
        var r20 := PositionalSum(bits);
        assert r20 == expected[i1][i] by {
          SentinelsIdentity(BitValues(group));
          VlaCell(smiles, k, i1, i);
        }
        if r20 == 0 {
          continue;
        }
        bits := ClearUnknown(bits);
        assert bits == MarkUnknown(BitValues(group)) by {
          SentinelsIdentity(BitValues(group));
        }
        r20 := PositionalSum(bits);
        vlaSmiles[i1, i] := r20;
      }
    }
  }
}
