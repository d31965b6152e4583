/**
 * The program's full test without its file and console I/O: compress the input,
 * save the tokens, load them back, decompress, and compare with the input.
 */
module Pipeline {
  import opened Wrappers
  import opened LittleEndian
  import opened Checksum
  import opened TokenCodec
  import opened RecordFormat

  /** The byte-by-byte comparison of the original and the decompressed data: a
      length check first, then equality. */
  function BytesEqual(original: seq<byte>, decompressed: seq<byte>): (same: bool)
    ensures same <==> original == decompressed
  {
    if |original| != |decompressed| then false else original == decompressed
  }

  /** For every input, either checksum routine and every window below the 16-bit
      field limit, the compressed file saves, loads back to the same tokens, and
      decompresses to the input. */
  lemma CompressedFileRoundTrip(v: Variant, data: seq<byte>, window: int)
    requires window < U16Limit
    ensures Serialized(v, Encoded(data, window)).Ok?
    ensures Parsed(v, Serialized(v, Encoded(data, window)).value) == Ok(Encoded(data, window))
    ensures Decoded(Encoded(data, window)) == Ok(data)
  {
    EncodedFits(v, data, window);
    SaveLoadRoundTrip(v, Encoded(data, window));
    RoundTrip(data, window);
  }

  /** Compress, save, load, decompress and compare, with the program's window size
      and the chosen checksum routine (`AsWritten` is the original program): the
      comparison always succeeds, and the file is the saved form of the tokens. */
  method FullTest(v: Variant, data: seq<byte>) returns (file: seq<byte>, same: bool)
    ensures Serialized(v, Encoded(data, DefaultWindow)) == Ok(file)
    ensures same
  {
    var tokens := Encode(data, DefaultWindow);
    CompressedFileRoundTrip(v, data, DefaultWindow);
    var saved := Save(v, tokens);
    file := saved.value;
    var loaded := Load(v, file);
    var decoded := Decode(loaded.value);
    same := BytesEqual(data, decoded.value);
  }
}
