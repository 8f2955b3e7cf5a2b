/** The composition in process_smiles_file: encode the batch, enumerate the
    divisors of the common length, and build one VLA matrix per divisor. */
module Pipeline {
  import opened Bits
  import opened Encoder
  import opened Divisibility
  import opened Vla

  /** The array a holds exactly VlaMatrix(rows, k). */
  ghost predicate HoldsVlaMatrix(a: array2<int>, rows: seq<seq<char>>, k: int)
    reads a
  {
    Admissible(rows, k) &&
    a.Length0 == |rows| && a.Length1 == |rows[0]| / k &&
    forall i, j :: 0 <= i < a.Length0 && 0 <= j < a.Length1 ==> a[i, j] == VlaMatrix(rows, k)[i][j]
  }

  /** The encoded rows of a non-empty batch of 8-bit strings are acceptable to
      transform_to_vla for every positive group size. */
  lemma EncodedRowsAdmissible(smilesList: seq<string>)
    requires |smilesList| > 0
    requires forall i :: 0 <= i < |smilesList| ==> CodePointsBelow256(smilesList[i])
    ensures EncodeBatch(smilesList).Ok?
    ensures |EncodeBatch(smilesList).value[0]| == 8 * MaxLength(smilesList)
    ensures forall k :: k >= 1 ==> Admissible(EncodeBatch(smilesList).value, k)
  {
    EncodeBatchShape(smilesList);
  }

  /** A group that lies wholly in the zero padding of a row is all '0'. */
  lemma PaddingGroupZero(row: seq<char>, n: nat, start: nat, end: nat)
    requires n <= start <= end <= |row| && AllZero(row[n..])
    ensures AllZero(row[start..end])
  {
    assert row[start..end] == row[n..][start - n .. end - n];
  }

  /** End to end with k = 8: cell (i, c) of the matrix of an encoded batch is the code
      point of character c of string i, and 0 in the padding columns past its end. */
  lemma EncodedBytesMatrix(smilesList: seq<string>, i: nat, c: nat)
    requires |smilesList| > 0
    requires forall j :: 0 <= j < |smilesList| ==> CodePointsBelow256(smilesList[j])
    requires i < |smilesList| && c < MaxLength(smilesList)
    ensures EncodeBatch(smilesList).Ok? && Admissible(EncodeBatch(smilesList).value, 8)
    ensures |VlaMatrix(EncodeBatch(smilesList).value, 8)[i]| == MaxLength(smilesList)
    ensures VlaMatrix(EncodeBatch(smilesList).value, 8)[i][c] ==
      if c < |smilesList[i]| then smilesList[i][c] as int else 0
  {
    EncodedRowsAdmissible(smilesList);
    var rows := EncodeBatch(smilesList).value;
    var cell := VlaMatrix(rows, 8)[i][c];
    assert cell == BinValue(rows[i][8 * c .. 8 * c + 8]) by {
      VlaCell(rows, 8, i, c);
    }
    if c < |smilesList[i]| {
      EncodeBatchRoundTrip(smilesList, i, c);
    } else {
      assert AllZero(rows[i][8 * c .. 8 * c + 8]) by {
        EncodeBatchShape(smilesList);
        PaddingGroupZero(rows[i], 8 * |smilesList[i]|, 8 * c, 8 * c + 8);
      }
    }
  }

  /** process_smiles_file without its file reads and writes: the encoded batch, the
      divisors of its length and, in the same order, one matrix per divisor. */
  method ProcessSmiles(smilesList: seq<string>)
    returns (binarySequences: Result<seq<seq<char>>>, divisors: seq<int>, matrices: seq<array2<int>>)
    requires forall i :: 0 <= i < |smilesList| ==> CodePointsBelow256(smilesList[i])
    ensures binarySequences == EncodeBatch(smilesList)
    ensures binarySequences.Err? ==> divisors == [] && matrices == []
    ensures binarySequences.Ok? ==>
      |binarySequences.value[0]| == 8 * MaxLength(smilesList) &&
      divisors == Divisors(8 * MaxLength(smilesList)) &&
      |matrices| == |divisors| &&
      forall d :: 0 <= d < |matrices| ==>
        fresh(matrices[d]) && HoldsVlaMatrix(matrices[d], binarySequences.value, divisors[d])
  {
    binarySequences := EncodeBatch(smilesList);
    divisors, matrices := [], [];
    if binarySequences.Err? {
      return;
    }
    var rows := binarySequences.value;
    EncodedRowsAdmissible(smilesList);

    var sequenceLength := |rows[0]|;
    divisors := FindDivisors(sequenceLength);

    for d := 0 to |divisors|
      invariant |matrices| == d
      invariant forall e :: 0 <= e < d ==> fresh(matrices[e]) && HoldsVlaMatrix(matrices[e], rows, divisors[e])
    {
      var k := divisors[d];
      assert k in divisors;
      var vlaSmiles := TransformToVla(rows, k);
      matrices := matrices + [vlaSmiles];
    }
  }

  /** f'{65:08b}' == '01000001' and f'{66:08b}' == '01000010'. */
  lemma ExampleFormat()
    ensures Format08('A' as int) == "01000001" && Format08('B' as int) == "01000010"
  {
    assert Digits(65) == "1000001" by {
      assert Digits(4) == "100" by { assert Digits(2) == "10"; }
      assert Digits(16) == "10000" by { assert Digits(8) == "1000"; }
      assert Digits(32) == "100000";
    }
    assert Digits(66) == "1000010" by {
      assert Digits(4) == "100" by { assert Digits(2) == "10"; }
      assert Digits(16) == "10000" by { assert Digits(8) == "1000"; }
      assert Digits(33) == "100001";
    }
  }

  /** The batch ["A", "AB"] encodes to L = 16 bits per row: 0100000100000000 and 0100000101000010. */
  lemma ExampleEncoding()
    ensures EncodeBatch(["A", "AB"]) == Ok(["0100000100000000", "0100000101000010"])
  {
    ExampleFormat();
    assert MaxLength(["A", "AB"]) == 2;
    assert SmilesToBinary("A", 16) == "0100000100000000" by {
      assert Unpadded("A") == Format08('A' as int) + Unpadded([]);
    }
    assert SmilesToBinary("AB", 16) == "0100000101000010" by {
      assert Unpadded("AB") == Format08('A' as int) + Unpadded("B");
      assert Unpadded("B") == Format08('B' as int) + Unpadded([]);
    }
    var rows := EncodeBatch(["A", "AB"]).value;
    assert |rows| == 2;
    assert rows[0] == "0100000100000000" && rows[1] == "0100000101000010";
    assert rows == ["0100000100000000", "0100000101000010"];
  }

  /** find_divisors(16) == [1, 2, 4, 8, 16]. */
  lemma ExampleDivisors()
    ensures Divisors(16) == [1, 2, 4, 8, 16]
  {
    assert DivisorsUpTo(16, 3) == [1, 2];
    assert DivisorsUpTo(16, 7) == [1, 2, 4];
    assert DivisorsUpTo(16, 15) == [1, 2, 4, 8];
  }

  /** The values of the three bytes the encoded example is made of. */
  lemma ExampleBytes()
    ensures BinValue("01000001") == 65 && BinValue("01000010") == 66 && BinValue("00000000") == 0
  {
    assert BinValue("01000001") == 65 by {
      ExampleFormat();
      CharBitsRoundTrip('A');
    }
    assert BinValue("01000010") == 66 by {
      ExampleFormat();
      CharBitsRoundTrip('B');
    }
    assert AllZero("00000000");
  }

  /** Two rows of two 8-bit groups each give a 2 x 2 matrix of their byte values. */
  lemma MatrixOfBytes(a: seq<char>, b: seq<char>, c: seq<char>, d: seq<char>)
    requires |a| == |b| == |c| == |d| == 8
    requires IsBitString(a) && IsBitString(b) && IsBitString(c) && IsBitString(d)
    ensures IsBitString(a + b) && IsBitString(c + d)
    ensures VlaMatrix([a + b, c + d], 8) == [[BinValue(a), BinValue(b)], [BinValue(c), BinValue(d)]]
  {
    assert IsBitString(a + b) && IsBitString(c + d);
    var rows := [a + b, c + d];
    var m := VlaMatrix(rows, 8);
    assert m[0][0] == BinValue(a) by { VlaCell(rows, 8, 0, 0); assert rows[0][0..8] == a; }
    assert m[0][1] == BinValue(b) by { VlaCell(rows, 8, 0, 1); assert rows[0][8..16] == b; }
    assert m[1][0] == BinValue(c) by { VlaCell(rows, 8, 1, 0); assert rows[1][0..8] == c; }
    assert m[1][1] == BinValue(d) by { VlaCell(rows, 8, 1, 1); assert rows[1][8..16] == d; }
    assert m[0] == [BinValue(a), BinValue(b)] && m[1] == [BinValue(c), BinValue(d)];
  }

  /** Two rows of 16 bits, taken as one group each, give a 2 x 1 matrix. */
  lemma MatrixOfWords(a: seq<char>, b: seq<char>, c: seq<char>, d: seq<char>)
    requires |a| == |b| == |c| == |d| == 8
    requires IsBitString(a) && IsBitString(b) && IsBitString(c) && IsBitString(d)
    ensures IsBitString(a + b) && IsBitString(c + d)
    ensures VlaMatrix([a + b, c + d], 16) ==
      [[BinValue(a) * Pow2(8) + BinValue(b)], [BinValue(c) * Pow2(8) + BinValue(d)]]
  {
    assert IsBitString(a + b) && IsBitString(c + d);
    var rows := [a + b, c + d];
    var m := VlaMatrix(rows, 16);
    assert m[0][0] == BinValue(a) * Pow2(8) + BinValue(b) by {
      VlaCell(rows, 16, 0, 0);
      assert rows[0][0..16] == a + b;
      BinValueAppend(a, b);
    }
    assert m[1][0] == BinValue(c) * Pow2(8) + BinValue(d) by {
      VlaCell(rows, 16, 1, 0);
      assert rows[1][0..16] == c + d;
      BinValueAppend(c, d);
    }
    assert m[0] == [BinValue(a) * Pow2(8) + BinValue(b)] && m[1] == [BinValue(c) * Pow2(8) + BinValue(d)];
  }

  /** With k = 8 the encoded example gives [[65, 0], [65, 66]]. */
  lemma ExampleMatrix8()
    ensures VlaMatrix(["0100000100000000", "0100000101000010"], 8) == [[65, 0], [65, 66]]
  {
    ExampleBytes();
    var a, b, zero := "01000001", "01000010", "00000000";
    MatrixOfBytes(a, zero, a, b);
    assert a + zero == "0100000100000000" && a + b == "0100000101000010";
  }

  /** With k = 16 the encoded example gives [[16640], [16706]]:
      0100000100000000 read in binary is 65 * 256 = 16640. */
  lemma ExampleMatrix16()
    ensures VlaMatrix(["0100000100000000", "0100000101000010"], 16) == [[16640], [16706]]
  {
    ExampleBytes();
    assert Pow2(8) == 256 by {
      assert Pow2(4) == 16;
      Pow2Add(4, 4);
    }
    var a, b, zero := "01000001", "01000010", "00000000";
    MatrixOfWords(a, zero, a, b);
    assert a + zero == "0100000100000000" && a + b == "0100000101000010";
  }
}
