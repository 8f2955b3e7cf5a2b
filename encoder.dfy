/** The binary encoder: every character becomes its code point written in
    binary with at least eight digits, and the concatenation is right-padded
    with '0' up to a requested length. */
module Encoder {
  import opened Bits

  /** The error a batch can raise before any encoding: max() over no strings. */
  datatype Error = EmptyBatch

  datatype Result<T> = Ok(value: T) | Err(error: Error)

  predicate CodePointsBelow256(s: string) { forall p :: 0 <= p < |s| ==> (s[p] as int) < 256 }

  /** The string '0' * count; a negative count gives the empty string. */
  function Zeros(count: int): (z: seq<char>)
    ensures |z| == if count < 0 then 0 else count
    ensures AllZero(z) && IsBitString(z)
  {
    seq(if count < 0 then 0 else count, _ => '0')
  }

  /** format(n, 'b'): the shortest binary numeral of n. */
  function Digits(n: nat): (r: seq<char>)
    ensures IsBitString(r) && |r| >= 1
  {
    if n < 2 then [if n == 0 then '0' else '1']
    else Digits(n / 2) + [if n % 2 == 0 then '0' else '1']
  }

  lemma {:induction false} DigitsValue(n: nat)
    ensures BinValue(Digits(n)) == n
  {
    if n >= 2 {
      DigitsValue(n / 2);
      var last := [if n % 2 == 0 then '0' else '1'];
      BinValueAppend(Digits(n / 2), last);
      assert BinValue(last) == n % 2;
    }
  }

  lemma {:induction false} DigitsLength(n: nat, width: nat)
    requires 1 <= width && n < Pow2(width)
    ensures |Digits(n)| <= width
  {
    if n >= 2 {
      assert width >= 2;
      DigitsLength(n / 2, width - 1);
    }
  }

  /** f'{n:08b}': the binary numeral of n, left-padded with '0' to at least eight digits. */
  function Format08(n: nat): (r: seq<char>)
    ensures IsBitString(r) && |r| >= 8
  {
    Zeros(8 - |Digits(n)|) + Digits(n)
  }

  lemma CharBitsRoundTrip(c: char)
    requires (c as int) < 256
    ensures |Format08(c as int)| == 8
    ensures BinValue(Format08(c as int)) == c as int
  {
    var n := c as int;
    assert Pow2(8) == 256 by {
      assert Pow2(4) == 16;
      Pow2Add(4, 4);
    }
    DigitsLength(n, 8);
    DigitsValue(n);
    var pad, digits := Zeros(8 - |Digits(n)|), Digits(n);
    assert BinValue(pad) == 0;
    BinValueAppend(pad, digits);
    assert BinValue(pad + digits) == BinValue(digits);
  }

  /** ''.join(f'{ord(c):08b}' for c in smiles) */
  function Unpadded(smiles: string): (r: seq<char>)
    ensures IsBitString(r) && |r| >= 8 * |smiles|
  {
    if |smiles| == 0 then [] else Format08(smiles[0] as int) + Unpadded(smiles[1..])
  }

  lemma {:induction false} UnpaddedLength(smiles: string)
    requires CodePointsBelow256(smiles)
    ensures |Unpadded(smiles)| == 8 * |smiles|
  {
    if |smiles| > 0 {
      CharBitsRoundTrip(smiles[0]);
      UnpaddedLength(smiles[1..]);
    }
  }

  /** The eight bits at [8i, 8i + 8) of the unpadded encoding are those of character i. */
  lemma {:induction false} UnpaddedChunk(smiles: string, i: nat)
    requires CodePointsBelow256(smiles) && i < |smiles|
    ensures 8 * i + 8 <= |Unpadded(smiles)|
    ensures Unpadded(smiles)[8 * i .. 8 * i + 8] == Format08(smiles[i] as int)
  {
    UnpaddedLength(smiles);
    CharBitsRoundTrip(smiles[0]);
    if i > 0 {
      UnpaddedChunk(smiles[1..], i - 1);
      var head, tail := Format08(smiles[0] as int), Unpadded(smiles[1..]);
      assert Unpadded(smiles) == head + tail;
      assert (head + tail)[8 * i .. 8 * i + 8] == tail[8 * (i - 1) .. 8 * (i - 1) + 8];
    }
  }

  /** smiles_to_binary: the encoding of smiles, right-padded with '0' to maxLength. */
  function SmilesToBinary(smiles: string, maxLength: int): (r: seq<char>)
    ensures IsBitString(r)
  {
    var binarySequence := Unpadded(smiles);
    binarySequence + Zeros(maxLength - |binarySequence|)
  }

  /** With 8-bit code points and room for them, the result has exactly maxLength
      characters and everything after the 8 * |smiles| data bits is '0'. */
  lemma SmilesToBinaryShape(smiles: string, maxLength: int)
    requires CodePointsBelow256(smiles) && 8 * |smiles| <= maxLength
    ensures |SmilesToBinary(smiles, maxLength)| == maxLength
    ensures SmilesToBinary(smiles, maxLength)[..8 * |smiles|] == Unpadded(smiles)
    ensures AllZero(SmilesToBinary(smiles, maxLength)[8 * |smiles|..])
  {
    UnpaddedLength(smiles);
    var b := Unpadded(smiles);
    assert SmilesToBinary(smiles, maxLength)[8 * |smiles|..] == Zeros(maxLength - |b|);
  }

  /** Round trip: bits [8i, 8i + 8) of the padded encoding, read as a big-endian
      number, give back the code point of character i. */
  lemma SmilesToBinaryRoundTrip(smiles: string, maxLength: int, i: nat)
    requires CodePointsBelow256(smiles) && i < |smiles|
    ensures 8 * i + 8 <= |SmilesToBinary(smiles, maxLength)|
    ensures BinValue(SmilesToBinary(smiles, maxLength)[8 * i .. 8 * i + 8]) == smiles[i] as int
  {
    UnpaddedChunk(smiles, i);
    CharBitsRoundTrip(smiles[i]);
    var b := Unpadded(smiles);
    assert SmilesToBinary(smiles, maxLength)[8 * i .. 8 * i + 8] == b[8 * i .. 8 * i + 8];
  }

  /** max(len(smiles) for smiles in batch) */
  function MaxLength(batch: seq<string>): (m: nat)
    requires |batch| > 0
    ensures forall i :: 0 <= i < |batch| ==> |batch[i]| <= m
    ensures exists i :: 0 <= i < |batch| && |batch[i]| == m
  {
    if |batch| == 1 then |batch[0]|
    else
      var rest := MaxLength(batch[1..]);
      assert forall i :: 1 <= i < |batch| ==> batch[i] == batch[1..][i - 1];
      if |batch[0]| >= rest then |batch[0]| else rest
  }

  /** Lines 75-76: L = 8 * the longest string, then every string encoded and padded to L. */
  function EncodeBatch(batch: seq<string>): (r: Result<seq<seq<char>>>)
    ensures r.Err? <==> |batch| == 0
    ensures r.Ok? ==> |r.value| == |batch| && forall i :: 0 <= i < |batch| ==> IsBitString(r.value[i])
  {
    if |batch| == 0 then Err(EmptyBatch)
    else
      var maxSmilesLength := MaxLength(batch) * 8;
      Ok(seq(|batch|, i requires 0 <= i < |batch| => SmilesToBinary(batch[i], maxSmilesLength)))
  }

  /** Every encoded row has the common length L = 8 * MaxLength, which is at least 8 as
      soon as one string is non-empty; each row is its string's bits followed by zeros. */
  lemma EncodeBatchShape(batch: seq<string>)
    requires |batch| > 0 && forall i :: 0 <= i < |batch| ==> CodePointsBelow256(batch[i])
    ensures EncodeBatch(batch).Ok?
    ensures forall i :: 0 <= i < |batch| ==>
      |EncodeBatch(batch).value[i]| == 8 * MaxLength(batch) &&
      EncodeBatch(batch).value[i][..8 * |batch[i]|] == Unpadded(batch[i]) &&
      AllZero(EncodeBatch(batch).value[i][8 * |batch[i]|..])
    ensures |EncodeBatch(batch).value[0]| == 8 * MaxLength(batch)
    ensures (exists i :: 0 <= i < |batch| && |batch[i]| > 0) ==> 8 * MaxLength(batch) >= 8
  {
    var rows := EncodeBatch(batch).value;
    forall i | 0 <= i < |batch|
      ensures |rows[i]| == 8 * MaxLength(batch)
      ensures rows[i][..8 * |batch[i]|] == Unpadded(batch[i])
      ensures AllZero(rows[i][8 * |batch[i]|..])
    {
      SmilesToBinaryShape(batch[i], 8 * MaxLength(batch));
    }
  }

  /** Round trip through the whole batch: byte c of row i decodes to character c of string i. */
  lemma EncodeBatchRoundTrip(batch: seq<string>, i: nat, c: nat)
    requires |batch| > 0 && forall j :: 0 <= j < |batch| ==> CodePointsBelow256(batch[j])
    requires i < |batch| && c < |batch[i]|
    ensures EncodeBatch(batch).Ok?
    ensures 8 * c + 8 <= |EncodeBatch(batch).value[i]|
    ensures BinValue(EncodeBatch(batch).value[i][8 * c .. 8 * c + 8]) == batch[i][c] as int
  {
    SmilesToBinaryRoundTrip(batch[i], 8 * MaxLength(batch), c);
  }
}
