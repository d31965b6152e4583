# LZ77 compressor with a CRC-32 trailer, modelled in Dafny

This project models the compression core of `tik.py`, a small LZ77 file compressor.
It covers six parts:

- **Match finder** (`znajdz_najdluzsze_dopasowanie`). For a position in the input, it searches the window of earlier bytes for the longest run that the bytes at the position repeat. Candidates go from the nearest to the farthest, and among the longest matches the nearest one wins.
- **Encoder** (`lz77_koduj`). Turns the input into `(offset, length, symbol)` tokens. `(0, 0, b)` is a literal.
- **Decoder** (`lz77_dekoduj`). Replays the tokens. Each back-reference copies `length` bytes, one at a time, from `offset` bytes back, then appends `symbol`.
- **Checksum** (`oblicz_crc32`). A bit-serial CRC over polynomial 0xEDB88320.
- **File format** (`zapisz_skompresowane`, `wczytaj_skompresowane`, without the file I/O).
  - Each token is a five-byte record: offset and length as little-endian unsigned 16-bit fields, then the symbol.
  - A four-byte little-endian checksum of the records follows them.
  - Loading checks, in this order, that a checksum is present, that it matches, and that the records come in whole five-byte units.
- **Comparison** (`porownaj_pliki`), and the compress, save, load, decompress and compare sequence of the program's full test.

Files:

- `bytes.dfy`: the `Result` type and little-endian packing.
- `checksum.dfy`: the checksum.
- `match.dfy`: the match finder.
- `codec.dfy`: the encoder and decoder.
- `format.dfy`: the record file format.
- `pipeline.dfy`: the comparison and the full test.

Every loop of the original is a method with loop invariants. Each loop method is proved equal to a specification function, and the lemmas are proved about those functions.

The main results:

- For every input and every window, decoding the encoder's tokens gives the input back (`TokenCodec.RoundTrip`).
- Saving and loading are inverse in both directions (`RecordFormat.SaveLoadRoundTrip`, `RecordFormat.LoadSaveRoundTrip`).
- With either checksum routine, changing any single byte of a saved file is always caught by the checksum (`RecordFormat.CorruptionDetected`).
- Decoding fails exactly when some token has a non-empty run and an offset that is 0 or more than twice the output before it (`TokenCodec.DecodedFailsIff`).
- The match finder returns the nearest of the longest matches in the window (`MatchFinder.FindLongestMatch`).
- The program's full test always reports success (`Pipeline.FullTest`).

The checksum routine in `tik.py` does not compute CRC-32 (see "## Findings"). The model keeps the routine as written, with lemmas exhibiting the difference, next to the corrected CRC-32. Saving and loading take the routine as a parameter (`Checksum.Variant`):
- `AsWritten` gives the files the original program writes and accepts.
- `Standard` gives the same format with CRC-32.

The round trips, the full test and the detection of every single-byte change are proved for both routines. The routine as written misses some changes of two bytes (`Checksum.AsWrittenCollision`).

Loading compares the checksum before it looks at the record alignment (`tik.py:112-117`). A valid file with one stray byte appended therefore fails with a checksum error, unless its last four bytes happen to equal the checksum of the rest. A misaligned-records error needs a body that is not a whole number of five-byte records together with a matching checksum (`RecordFormat.Parsed`, `RecordFormat.MisalignedDetected`).

## Model

| member | source | states |
|---|---|---|
| LittleEndian.ToByte | tik.py:90 | the byte built for a value below 256 has exactly that value |
| LittleEndian.U16Bytes | tik.py:90 | a 16-bit field is two bytes, low byte first, whose weighted sum is the value |
| LittleEndian.U16Value | tik.py:121 | an unpacked 16-bit field is below 65536; its low and high bytes are the two stored bytes |
| LittleEndian.U16RoundTrip | tik.py:90 | unpacking a packed 16-bit field gives the value back |
| LittleEndian.U16Unpack | tik.py:121 | packing an unpacked 16-bit field gives the two bytes back |
| LittleEndian.U32Bytes | tik.py:93 | the packed 32-bit checksum is four bytes |
| LittleEndian.U32Value | tik.py:109 | packing the unpacked 32-bit trailer gives the four bytes back, so distinct trailers unpack to distinct checksums |
| LittleEndian.U32RoundTrip | tik.py:93 | unpacking the packed 32-bit checksum gives the checksum back |
| Checksum.Crc32 | tik.py:8-17 | the CRC-32 of the empty input is 0 |
| Checksum.ShiftCases | tik.py:12-15 | a serial step shifts right by one bit and folds in the polynomial exactly when the bit shifted out is set |
| Checksum.ShiftByte | tik.py:11-15 | the inner loop performs exactly eight serial shift-and-reduce steps on its register |
| Checksum.ComputeCrc32 | tik.py:3-17 | the byte loop with its eight-step inner loop computes CRC-32 of its input, with the corrected register update |
| Checksum.CheckValue | tik.py:3-17 | CRC-32 of the ASCII digits "123456789" is 0xCBF43926, the catalogue check value |
| Checksum.ShiftInjective | tik.py:12-15 | one shift-and-reduce step is one-to-one, because the polynomial's top bit marks when it was folded in |
| Checksum.UpdateInjective | tik.py:10-16 | different registers give different registers after the same byte |
| Checksum.UpdateInjectiveInByte | tik.py:10-16 | different bytes give different registers from the same register |
| Checksum.FoldAppend | tik.py:9-16 | feeding two inputs one after the other equals feeding their concatenation |
| Checksum.FoldKeepsDifference | tik.py:9-16 | two different registers stay different whatever bytes follow |
| Checksum.SingleByteErrorDetected | tik.py:3-17 | two equally long inputs that differ in exactly one byte have different CRC-32 values |
| Checksum.Crc32AsWritten | tik.py:8-17 | the checksum the original routine returns for the empty input is 0 |
| Checksum.ComputeCrc32AsWritten | tik.py:3-17 | the original loops, line for line, compute the as-written checksum |
| Checksum.AsWrittenDiffersFromCrc32 | tik.py:16 | on the one-byte input 0x00 the original routine returns 0xD2FD1072 where CRC-32 is 0xD202EF8D |
| Checksum.ChecksumOf | tik.py:3-17 | whichever routine is chosen, the checksum of the empty input is 0 |
| Checksum.ComputeChecksum | tik.py:3-17 | the chosen routine's loops compute the chosen routine's checksum |
| Checksum.AsWrittenCollision | tik.py:16 | the original routine gives 0x6CF60062 for both 00 00 and 01 96, which CRC-32 tells apart (0x41D912FF and 0x41AE15CF) |
| Checksum.StepsSplit | tik.py:11-15 | eight steps on a register equal the eight steps on its low byte alone, plus the rest of the register shifted down by a byte |
| Checksum.UpdateAsWrittenLowByte | tik.py:10-16 | after the original routine's update the old register cancels out: the new register is the eight steps on the low byte of register xor byte, and nothing else |
| Checksum.StepsLowByteInjective | tik.py:11-15 | eight steps on two different byte values end in registers with different low bytes |
| Checksum.UpdateAsWrittenInjectiveInByte | tik.py:10-16 | under the original routine's update, different bytes give registers with different low bytes from the same register |
| Checksum.UpdateAsWrittenKeepsLowDifference | tik.py:10-16 | under the original routine's update, registers with different low bytes stay so after the same byte |
| Checksum.FoldAsWrittenKeepsLowDifference | tik.py:9-16 | under the original routine, registers with different low bytes stay so whatever bytes follow |
| Checksum.FoldAsWrittenAppend | tik.py:9-16 | under the original routine, feeding two inputs one after the other equals feeding their concatenation |
| Checksum.AsWrittenSingleByteErrorDetected | tik.py:3-17 | two equally long inputs that differ in exactly one byte have different checksums under the original routine too |
| Checksum.ChecksumSingleByteErrorDetected | tik.py:3-17 | whichever routine is chosen, two equally long inputs differing in exactly one byte have different checksums |
| MatchFinder.MatchesPrefix | tik.py:32-35 | a match is also a match of every shorter length |
| MatchFinder.MatchesOneMore | tik.py:32-35 | a match inside the bounds grows by one byte exactly when the next two bytes agree |
| MatchFinder.ExtendIsMaximal | tik.py:31-35 | the extension loop ends at a match that cannot be extended by one byte |
| MatchFinder.MatchLengthIsLongest | tik.py:31-35 | a candidate matches at a length exactly when that length is at most the loop's count, so the count is the longest match from that candidate |
| MatchFinder.ScanIsNearestLongest | tik.py:30-38 | after trying candidates down to q: no match is (0, 0); a reported match has the reported length; no candidate is longer; no nearer candidate is as long |
| MatchFinder.LongestMatchIsNearestLongest | tik.py:19-40 | the result is (0, 0) exactly when nothing matches; otherwise it is a real match starting inside the window, no candidate matches longer, and no nearer candidate matches as long |
| MatchFinder.ExtendMatch | tik.py:31-35 | the inner loop returns the longest match from the candidate, and that match cannot be extended |
| MatchFinder.FindLongestMatch | tik.py:19-40 | the candidate loop returns the nearest of the longest matches in the window; the offset is at least 1 and at most pos and the window, or the result is (0, 0) |
| TokenCodec.SpanBoundsCount | tik.py:52-61 | a token list stands for at least as many bytes as it has tokens |
| TokenCodec.NextToken | tik.py:53-61 | the token emitted at a position ends inside the input, and its symbol is the byte just after its run |
| TokenCodec.Encode | tik.py:42-63 | the encoder loop emits, position by position, the token for the longest match, or a literal |
| TokenCodec.NextTokenWithinWindow | tik.py:53-61 | each emitted token is a literal, or has a length of at least 1, an offset no smaller than the length and no larger than the window |
| TokenCodec.EncodedWithinWindow | tik.py:42-63 | every token the encoder emits is within the window in that sense |
| TokenCodec.EncodedFromSpan | tik.py:52-61 | the tokens from a position on stand for exactly the remaining bytes |
| TokenCodec.EncodedCount | tik.py:42-63 | the encoder's tokens stand for exactly the input's length, so there are never more tokens than input bytes |
| TokenCodec.IndexAt | tik.py:76 | reading the output at a list index, negative ones counting from the end, gives the element at that index modulo the output length |
| TokenCodec.Decode | tik.py:65-78 | the decoder loop, with its copy loop, gives the decoded output, or the index error Python raises |
| TokenCodec.CopyFromExtends | tik.py:74-76 | a copy that succeeds keeps the output so far and appends one byte per step |
| TokenCodec.DecodeFromExtends | tik.py:70-77 | a decoding that succeeds keeps the output so far and appends exactly the bytes the tokens stand for |
| TokenCodec.DecodedLength | tik.py:65-78 | a successful decoding is as long as the tokens' total span |
| TokenCodec.CopyFromWithinOutput | tik.py:74-76 | a copy that starts inside the output succeeds, and each appended byte equals the byte offset positions before it |
| TokenCodec.ApplyWithinOutput | tik.py:71-77 | a token whose offset is between 1 and the output length decodes to a run in which each byte repeats the byte offset positions back, then the symbol |
| TokenCodec.CopyFromInRange | tik.py:75-76 | a copy whose next index is a valid list index, counting negative indices from the end, never fails, because the output grows as fast as the index |
| TokenCodec.ApplyFailsIff | tik.py:71-77 | a token fails exactly when its run is non-empty and its offset is 0 or exceeds twice the output length; every other token succeeds, with or without negative indices |
| TokenCodec.ApplyLength | tik.py:71-77 | a token that decodes without error adds exactly its run length plus one byte to the output |
| TokenCodec.DecodeFromFailsWhenReachingOutside | tik.py:70-77 | decoding after some output fails exactly when some token, in front of the output its predecessors leave, has a non-empty run with offset 0 or beyond twice that output's length |
| TokenCodec.DecodeFromFailsIff | tik.py:70-77 | the same, with the failing token named by its index j and the output before it measured as the earlier output plus the span of the first j tokens; failure depends on offsets and lengths only, never on the bytes |
| TokenCodec.DecodedFailsIff | tik.py:65-78 | decoding a token list fails exactly when some token j has a non-empty run and an offset that is 0 or beyond twice the span of the j tokens before it |
| TokenCodec.CopyFromMatch | tik.py:74-76 | copying from a matching earlier run rebuilds the matched bytes |
| TokenCodec.NextTokenRebuilds | tik.py:53-61 | decoding the token emitted at a position, after the bytes before it, rebuilds the bytes it stands for |
| TokenCodec.DecodeEncodedFrom | tik.py:42-78 | decoding the tokens emitted from a position on, after the bytes before it, gives the whole input |
| TokenCodec.RoundTrip | tik.py:42-78 | for every input and every window, decoding the encoder's tokens gives the input back |
| TokenCodec.RunExample | tik.py:74-77 | a back-reference longer than its offset copies bytes it has just appended: (0,0,A) then (1,5,B) decodes to AAAAAAB |
| TokenCodec.ZeroOffsetFails | tik.py:74-76 | a token with offset 0 and a non-empty run reads one past the end of the output and fails |
| TokenCodec.FarReferenceFails | tik.py:74-76 | a non-empty back-reference reaching more than twice the output length back fails on its first byte |
| TokenCodec.EmptyRunIgnoresOffset | tik.py:71-77 | a token with length 0 outputs just its symbol, whatever its offset |
| TokenCodec.NegativeIndexExample | tik.py:74-76 | a reference reaching past the start of the output by no more than its length reads with Python's negative indices: A, B, (3,2,C) decodes to ABBAC |
| TokenCodec.EncodeDistinctExample | tik.py:52-61 | AB encodes to the two literals (0,0,A), (0,0,B) |
| TokenCodec.EncodeTrailingMatchExample | tik.py:52-61 | ABAB encodes to four literals, because a match reaching the end of the input leaves no symbol |
| TokenCodec.EncodeMatchExample | tik.py:52-61 | ABABX encodes to (0,0,A), (0,0,B), (2,2,X) |
| TokenCodec.EncodeNearestExample | tik.py:52-61 | AABAC encodes to (0,0,A), (1,1,B), (2,1,C): of two candidates matching one byte, the nearer is taken |
| RecordFormat.Record | tik.py:90 | a token's record is five bytes long |
| RecordFormat.ParseRecord | tik.py:121 | a token read from a record always has 16-bit fields |
| RecordFormat.RecordRoundTrip | tik.py:90 | reading a token's record gives the token back |
| RecordFormat.ParseRecordRoundTrip | tik.py:121 | any five bytes are the record of the token read from them |
| RecordFormat.Records | tik.py:89-90 | the records of n tokens are 5n bytes long |
| RecordFormat.ParseRecords | tik.py:120-122 | a body of 5n bytes holds n tokens, all with 16-bit fields |
| RecordFormat.RecordsAppend | tik.py:89-90 | the records of two lists appended are the two lists' records appended |
| RecordFormat.ParseRecordsOfRecords | tik.py:89-90 | reading the records of a token list gives the list back |
| RecordFormat.RecordsOfParseRecords | tik.py:120-122 | every body of whole records is the records of the tokens read from it |
| RecordFormat.Serialized | tik.py:88-93 | a saved file holds five bytes per token plus four |
| RecordFormat.Save | tik.py:80-96 | the save loop packs the tokens and appends the chosen routine's checksum of the records, or fails on the first field that does not fit in 16 bits |
| RecordFormat.SerializedLayout | tik.py:88-93 | saving succeeds exactly when every field fits in 16 bits; the file is then 5n+4 bytes, its records read back as the tokens, and its trailer is the chosen routine's checksum of the records |
| RecordFormat.Parsed | tik.py:98-124 | a file that loads to n tokens is 5n+4 bytes long |
| RecordFormat.Load | tik.py:98-124 | the load routine fails on a missing checksum, then on a mismatch with the chosen routine's checksum, then on misaligned records, and otherwise returns the tokens of the records |
| RecordFormat.UnpackRecords | tik.py:119-124 | the unpacking loop returns one token per five bytes, in order |
| RecordFormat.SaveLoadRoundTrip | tik.py:80-124 | with either checksum routine, loading a saved file gives back the saved tokens |
| RecordFormat.LoadSaveRoundTrip | tik.py:98-124 | with either checksum routine, every file that loads is exactly the saved form of the tokens it loads to |
| RecordFormat.CorruptionDetected | tik.py:109-114 | with either checksum routine, a saved file changed in any one byte, in the records or in the trailer, fails to load with a checksum error |
| RecordFormat.TrailerCorruptionDetected | tik.py:109-114 | with either checksum routine, a saved file whose trailer is changed in any one byte fails to load with a checksum error |
| RecordFormat.MisalignedDetected | tik.py:112-117 | with either checksum routine, a file whose checksum matches but whose records are not whole five-byte units fails with the format error |
| RecordFormat.EncodedFits | tik.py:42-63 | with a window below 65536, the program's 4096 included, every encoder token fits the record fields, so saving cannot fail with either checksum routine |
| Pipeline.BytesEqual | tik.py:126-132 | the comparison answers true exactly when the two byte strings are equal, so the length check never changes the answer |
| Pipeline.CompressedFileRoundTrip | tik.py:191-204 | for every input, either checksum routine and a window below 65536, the compressed file saves, loads back to the same tokens, and decompresses to the input |
| Pipeline.FullTest | tik.py:186-207 | compress, save, load, decompress and compare with the program's window always reports the data identical, for the original routine as for CRC-32, and the file is the saved form of the tokens |

## Left out

- `menu` (tik.py:134-212) is not modelled. It is console input and output, file names, and printing. Only the computation of its full test is modelled, as `Pipeline.FullTest`.
- The file reads and writes in `zapisz_skompresowane` and `wczytaj_skompresowane` are left out. The model takes and returns the file's bytes.
- Raised exceptions become `Err` values. Their messages are not modelled.
- Token values the program never produces cannot be represented, because offsets and lengths are natural numbers and symbols are bytes. Examples are negative offsets or lengths, and symbols above 255, which Python's `bytearray.append` would reject.
- Time and memory use of the quadratic match search are not modelled.

## Findings

| source | as written | input that shows it | evidently intended | confidence | as-written member | corrected member |
|---|---|---|---|---|---|---|
| tik.py:16 | after the eight bit steps on `temp = crc ^ byte`, the register becomes `(crc >> 8) ^ temp`; for every register and byte this cancels the old register, leaving the eight steps on the low byte of `crc ^ byte` alone (`Checksum.UpdateAsWrittenLowByte`), so the routine keeps only eight bits of state between bytes | the inputs 00 00 and 01 96 both give 0x6CF60062, which CRC-32 tells apart; the input 00 gives 0xD2FD1072 instead of 0xD202EF8D | `crc = temp`, the bit-serial CRC-32 the routine's description names, whose check value on "123456789" is 0xCBF43926 | not executed | Checksum.AsWrittenCollision | Checksum.CheckValue |
