# VLA-SMILES encoding core in Dafny

This project models the encoding pipeline of the SMILES to VLA-SMILES converter
(`smiles_to_vla_smiles.py`) and proves what it computes. The pipeline has three parts:

- **Binary encoder** (`smiles_to_binary`). Every character becomes its code point in
  binary with at least eight digits (`f'{ord(c):08b}'`). The concatenation is then
  right-padded with `'0'` up to a requested length.
- **Batch length rule and divisor enumeration** (`process_smiles_file`, `find_divisors`).
  The common length is L = 8 × the longest string. Every string is padded to L. All
  divisors of `len(binary_sequences[0])` are then listed in ascending order.
- **VLA regrouping** (`transform_to_vla`). For a group size k, every row of bits is cut
  into consecutive k-bit groups. Each group becomes its unsigned integer value. The
  values fill an N × (L div k) matrix, which starts as all zeros and is written cell by
  cell. A group whose first sum is 0 is skipped. The sentinel rewrites (`bit >= 0 else 2`,
  then `2 → 0`) are modelled as they are written.

Modules, one per component:

- `Bits` (bits.dfy): bit strings and their big-endian value.
- `Encoder` (encoder.dfy): `smiles_to_binary` and the batch encoding at lines 75-76.
- `Divisibility` (divisors.dfy): `find_divisors`.
- `Vla` (vla.dfy): `transform_to_vla`.
- `Pipeline` (pipeline.dfy): the composition in `process_smiles_file` and the worked
  example.

The source's form is kept:

- The encoder is pure (a join over a generator, a list comprehension), so it is written
  as functions and lemmas.
- `find_divisors` is a method with a `while` loop that appends to a sequence.
- `transform_to_vla` is a method that allocates a zero-initialised `array2<int>`, as
  `np.zeros` does. It fills the array in two nested `for` loops and uses `continue` on a
  zero sum. It is proved equal to the pure matrix `VlaMatrix`. Cell (i, j) of that matrix
  is the big-endian value of bits [j·k, (j+1)·k) of row i.

The input rows are immutable `seq` values, so no operation can change them.

Worked example: the batch `["A", "AB"]` gives L = 16 and the rows `0100000100000000` and
`0100000101000010`. The divisors of 16 are `[1, 2, 4, 8, 16]`. With k = 8 the matrix is
`[[65, 0], [65, 66]]`, and with k = 16 it is `[[16640], [16706]]`, since
0100000100000000₂ = 16640.

The code defines no error types of its own:

- An empty batch is the `ValueError` raised by `max()` (line 75). It is modelled as
  `Err(EmptyBatch)`.
- A code point of 256 or more raises nothing. It is encoded with more than eight digits,
  as `format` does.

## Model

| member | source | states |
|---|---|---|
| Bits.DigitValue | smiles_to_vla_smiles.py:56 | `int(c)` on a bit character is 0 or 1, and is 0 exactly for `'0'` |
| Bits.BitValues | smiles_to_vla_smiles.py:56 | the list of `int(c)` has one entry per character; on a bit string every entry is 0 or 1, and an entry is 0 exactly where the character is `'0'` |
| Bits.PositionalSum | smiles_to_vla_smiles.py:58 | the sum Σ bits[idx]·2^(len−idx−1) of lines 58 and 62, the value `TransformToVla` assigns to `r20`; it has no contract of its own, and its properties are proved in `PositionalSumBounds`, `PositionalSumZero` and `PositionalSumAppend` |
| Bits.BinValue | smiles_to_vla_smiles.py:58 | the positional-weight sum of a k-bit group lies in [0, 2^k), and it is 0 exactly when every bit is `'0'` |
| Bits.PositionalSumBounds | smiles_to_vla_smiles.py:58 | on 0/1 bits, Σ bits[idx]·2^(len−idx−1) is non-negative and below 2^len |
| Bits.PositionalSumZero | smiles_to_vla_smiles.py:58-60 | on 0/1 bits the sum is 0 if and only if every bit is 0 (the condition of the skip at lines 59-60) |
| Bits.PositionalSumAppend | smiles_to_vla_smiles.py:58 | the weighted sum of a concatenation is the first part's sum shifted left by the length of the second, plus the second's sum |
| Bits.BinValueAppend | smiles_to_vla_smiles.py:58 | the same law for bit strings: value(a + b) = value(a)·2^len(b) + value(b) |
| Encoder.Zeros | smiles_to_vla_smiles.py:36 | `'0' * n` has n characters, all `'0'`, and is empty when n is negative |
| Encoder.Digits | smiles_to_vla_smiles.py:34 | the binary numeral of a code point is a non-empty string of bits |
| Encoder.DigitsValue | smiles_to_vla_smiles.py:34 | reading the binary numeral of n back in base 2 gives n |
| Encoder.DigitsLength | smiles_to_vla_smiles.py:34 | a number below 2^w has at most w binary digits |
| Encoder.Format08 | smiles_to_vla_smiles.py:34 | `f'{n:08b}'` is a bit string of at least eight characters |
| Encoder.CharBitsRoundTrip | smiles_to_vla_smiles.py:34 | for a code point below 256 the `08b` numeral has exactly 8 bits and decodes back to the code point |
| Encoder.Unpadded | smiles_to_vla_smiles.py:34 | the join of the per-character numerals is a bit string of at least 8·len(smiles) characters |
| Encoder.UnpaddedLength | smiles_to_vla_smiles.py:34 | with code points below 256 the join has exactly 8·len(smiles) characters |
| Encoder.UnpaddedChunk | smiles_to_vla_smiles.py:34 | characters [8i, 8i+8) of the join are exactly the numeral of character i |
| Encoder.SmilesToBinary | smiles_to_vla_smiles.py:34-36 | the padded encoding is always a string of `'0'`/`'1'` |
| Encoder.SmilesToBinaryShape | smiles_to_vla_smiles.py:34-36 | with code points below 256 and 8·len(smiles) ≤ max_length, the result has exactly max_length characters; its first 8·len(smiles) characters are the join, and every later character is `'0'` |
| Encoder.SmilesToBinaryRoundTrip | smiles_to_vla_smiles.py:34-36 | round trip: output characters [8i, 8i+8), read as a big-endian number, equal `ord(smiles[i])` |
| Encoder.MaxLength | smiles_to_vla_smiles.py:75 | the maximum is at least every string's length and is the length of some string in the batch |
| Encoder.EncodeBatch | smiles_to_vla_smiles.py:75-76 | the batch fails exactly when it is empty (the `ValueError` of `max()`); otherwise it yields one bit string per input string |
| Encoder.EncodeBatchShape | smiles_to_vla_smiles.py:75-83 | every padded row, and so `len(binary_sequences[0])`, has length L = 8·max length, which is at least 8 once some string is non-empty; each row is its string's bits followed by zeros |
| Encoder.EncodeBatchRoundTrip | smiles_to_vla_smiles.py:76 | byte c of row i decodes to character c of input string i |
| Divisibility.DivisorsUpToSpec | smiles_to_vla_smiles.py:44-46 | after scanning 1..m, k has been appended if and only if 1 ≤ k ≤ m and n % k == 0, and the list is strictly ascending |
| Divisibility.DivisorsUpTo | smiles_to_vla_smiles.py:43-46 | the list the loop has built after scanning 1..m, as a value; no contract of its own, its membership and order are proved in `DivisorsUpToSpec` |
| Divisibility.Divisors | smiles_to_vla_smiles.py:42-47 | `find_divisors(n)` as a value (the scan up to n); no contract of its own, its properties are proved in `DivisorsSpec` |
| Divisibility.DivisorsSpec | smiles_to_vla_smiles.py:42-47 | `find_divisors(n)` holds exactly the k with 1 ≤ k ≤ n and n % k == 0, strictly ascending; for n ≥ 1 it starts with 1 and ends with n, and for n ≤ 0 it is empty |
| Divisibility.FindDivisors | smiles_to_vla_smiles.py:42-47 | the loop returns the divisor list, exactly the k with 1 ≤ k ≤ n and n % k == 0, strictly ascending |
| Vla.GroupFits | smiles_to_vla_smiles.py:55-56 | every group index below L div k addresses a slice [j·k, (j+1)·k) inside the first L bits |
| Vla.Group | smiles_to_vla_smiles.py:56 | the slice [j·k, (j+1)·k) of a row that line 56 reads has exactly k characters |
| Vla.RowValues | smiles_to_vla_smiles.py:55-64 | one matrix row has L div k cells, each in [0, 2^k) |
| Vla.VlaMatrix | smiles_to_vla_smiles.py:50-52 | the matrix has N rows of L div k cells (L = length of row 0), and every cell lies in [0, 2^k) |
| Vla.VlaCell | smiles_to_vla_smiles.py:56-64 | cell (i, j) is the big-endian value of bits [j·k, (j+1)·k) of row i, and it is 0 exactly when that group is all `'0'`, whether data or padding |
| Vla.MarkUnknown | smiles_to_vla_smiles.py:57 | the rewrite keeps the length, leaves no negative entry, and keeps every non-negative bit as it is |
| Vla.ClearUnknown | smiles_to_vla_smiles.py:61 | the rewrite keeps the length, leaves no sentinel 2, and keeps every entry other than 2 as it is |
| Vla.SentinelsIdentity | smiles_to_vla_smiles.py:57-62 | on 0/1 bits both sentinel rewrites leave the list unchanged, so the recomputed r20 equals the first |
| Vla.TransformToVla | smiles_to_vla_smiles.py:49-65 | returns a new N × (L div k) array whose every cell equals the matrix cell; the zero-sum `continue` leaves exactly the cells that must be 0 |
| Pipeline.EncodedRowsAdmissible | smiles_to_vla_smiles.py:75-87 | the padded rows of a non-empty 8-bit batch are bit strings of one common length 8·max length, so `transform_to_vla` may be called on them with any positive k |
| Pipeline.EncodedBytesMatrix | smiles_to_vla_smiles.py:75-87 | end to end for k = 8: for every non-empty 8-bit batch, the matrix row of string i has max-length cells; cell c is `ord(batch[i][c])` for c < len(batch[i]) and 0 in the padding columns |
| Pipeline.PaddingGroupZero | smiles_to_vla_smiles.py:36 | every group lying wholly in a row's `'0'` padding is all `'0'` |
| Pipeline.ProcessSmiles | smiles_to_vla_smiles.py:75-87 | an empty batch fails with no output; otherwise the rows are the batch encoding, `len(binary_sequences[0])` = 8·max length, the divisors are exactly those of that length, and matrix d is a new array holding the matrix for divisor d |
| Pipeline.ExampleFormat | smiles_to_vla_smiles.py:34 | `'A'` and `'B'` encode as 01000001 and 01000010 |
| Pipeline.ExampleEncoding | smiles_to_vla_smiles.py:75-76 | `["A", "AB"]` encodes to 0100000100000000 and 0100000101000010 |
| Pipeline.ExampleDivisors | smiles_to_vla_smiles.py:42-47 | `find_divisors(16)` is [1, 2, 4, 8, 16] |
| Pipeline.ExampleBytes | smiles_to_vla_smiles.py:58 | 01000001, 01000010 and 00000000 are worth 65, 66 and 0 |
| Pipeline.MatrixOfBytes | smiles_to_vla_smiles.py:49-65 | with k = 8, two rows of two bytes give the 2 × 2 matrix of the byte values |
| Pipeline.MatrixOfWords | smiles_to_vla_smiles.py:49-65 | with k = 16, two 16-bit rows give a 2 × 1 matrix whose cell is high byte · 2^8 + low byte |
| Pipeline.ExampleMatrix8 | smiles_to_vla_smiles.py:49-65 | with k = 8 the example gives [[65, 0], [65, 66]] |
| Pipeline.ExampleMatrix16 | smiles_to_vla_smiles.py:49-65 | with k = 16 the example gives [[16640], [16706]] |

## Left out

- File I/O and the command line are not modelled, because they hold no logic. This covers the input read and the `binary_output.dat` write (lines 72-73, 78-81), the `np.savetxt` calls (lines 88-89), the `FileNotFoundError` message (lines 91-93), `main` with its `sys.argv` check (lines 95-104) and `read_binary_smiles` (lines 38-40, never called). `ProcessSmiles` returns the encoded rows, the divisors and the matrices instead of writing them.
- Floating-point storage is not modelled. `np.zeros` makes a float64 array, so a cell above 2^53 can lose exactness and a value of 2^1024 or more raises `OverflowError`. The model keeps every cell as an exact `int`.
- ProcessSmiles: requires every code point to be below 256. For larger code points a row can become longer than L (when its unpadded encoding exceeds L), and the later indexing behaves differently. `SmilesToBinary` itself has no such restriction.
- TransformToVla: requires `'0'`/`'1'` characters, rows at least as long as row 0, and k ≥ 1. The source would also accept other decimal digits through `int(c)`, and it fails with an exception for k = 0. Rows shorter than row 0 are excluded even though the source accepts them as long as each is at least (L div k)·k long, since it reads no index beyond that; the only call site (line 87) passes rows of one common length. Those paths are not modelled. When k does not divide L, the source drops the trailing bits, and the model does the same through `L div k`.
- Re-running the pipeline on the same batch gives the same matrices. This is not stated as a separate lemma, because every function here is deterministic by construction.
