/**
 * The compressed file format: one five-byte record per token (offset and length as
 * little-endian unsigned 16-bit fields, then the symbol byte), followed by a
 * four-byte little-endian checksum of the records.
 *
 * Saving fails when a field does not fit in 16 bits. Loading checks, in this order,
 * that the file holds a checksum, that the checksum matches the records, and that
 * the records come in whole five-byte units.
 *
 * Saving and loading take the checksum routine as a parameter: `AsWritten` is the
 * file the original program writes and accepts, `Standard` the same format with the
 * corrected CRC-32.
 */
module RecordFormat {
  import opened Wrappers
  import opened LittleEndian
  import opened Checksum
  import opened TokenCodec


  datatype SaveError = FieldOutOfRange
  datatype LoadError = MissingChecksum | ChecksumMismatch | MisalignedRecords

  /** Both fields of the token fit in an unsigned 16-bit field. */
  predicate Fits(t: Token) {
    t.offset < U16Limit && t.length < U16Limit
  }

  predicate AllFit(tokens: seq<Token>) {
    forall i :: 0 <= i < |tokens| ==> Fits(tokens[i])
  }

  /** The record of one token. */
  function Record(t: Token): (r: seq<byte>)
    requires Fits(t)
    ensures |r| == 5
  {
    U16Bytes(t.offset) + U16Bytes(t.length) + [t.symbol]
  }

  /** The token a five-byte record holds. */
  function ParseRecord(s: seq<byte>): (t: Token)
    requires |s| == 5
    ensures Fits(t)
  {
    Token(U16Value(s[0], s[1]), U16Value(s[2], s[3]), s[4])
  }

  /** Reading a record back gives the token that was written... */
  lemma RecordRoundTrip(t: Token)
    requires Fits(t)
    ensures ParseRecord(Record(t)) == t
  {
    var r := Record(t);
    U16RoundTrip(t.offset);
    U16RoundTrip(t.length);
    assert r[0..2] == U16Bytes(t.offset) && r[2..4] == U16Bytes(t.length);
  }

  /** ...and every five bytes are the record of the token read from them. */
  lemma ParseRecordRoundTrip(s: seq<byte>)
    requires |s| == 5
    ensures Record(ParseRecord(s)) == s
  {
    U16Unpack(s[0], s[1]);
    U16Unpack(s[2], s[3]);
  }

  /** The records of a token list, in order. */
  function Records(tokens: seq<Token>): (r: seq<byte>)
    requires AllFit(tokens)
    ensures |r| == 5 * |tokens|
  {
    if |tokens| == 0 then [] else Record(tokens[0]) + Records(tokens[1..])
  }

  /** The tokens of a run of whole records, in order. */
  function ParseRecords(body: seq<byte>): (r: seq<Token>)
    requires |body| % 5 == 0
    ensures AllFit(r) && 5 * |r| == |body|
    decreases |body|
  {
    if |body| == 0 then [] else [ParseRecord(body[..5])] + ParseRecords(body[5..])
  }

  lemma AllFitTail(a: seq<Token>)
    requires |a| > 0 && AllFit(a)
    ensures AllFit(a[1..])
  {
    forall i | 0 <= i < |a| - 1
      ensures Fits(a[1..][i])
    {
      assert a[1..][i] == a[i + 1];
    }
  }

  lemma AllFitAppend(a: seq<Token>, b: seq<Token>)
    requires AllFit(a) && AllFit(b)
    ensures AllFit(a + b)
  {
    forall i | 0 <= i < |a + b|
      ensures Fits((a + b)[i])
    {
      if i >= |a| {
        assert (a + b)[i] == b[i - |a|];
      }
    }
  }

  lemma {:induction false} RecordsAppend(a: seq<Token>, b: seq<Token>)
    requires AllFit(a) && AllFit(b)
    ensures AllFit(a + b)
    ensures Records(a + b) == Records(a) + Records(b)
    decreases |a|
  {
    AllFitAppend(a, b);
    if |a| == 0 {
      assert a + b == b;
    } else {
      var ab := a + b;
      assert ab[0] == a[0];
      assert ab[1..] == a[1..] + b;
      AllFitTail(a);
      RecordsAppend(a[1..], b);
      calc {
        Records(ab);
        Record(a[0]) + Records(a[1..] + b);
        Record(a[0]) + (Records(a[1..]) + Records(b));
        (Record(a[0]) + Records(a[1..])) + Records(b);
      }
    }
  }

  /** Reading the records of a token list gives the list back... */
  lemma {:induction false} ParseRecordsOfRecords(tokens: seq<Token>)
    requires AllFit(tokens)
    ensures ParseRecords(Records(tokens)) == tokens
    decreases |tokens|
  {
    if |tokens| > 0 {
      var body := Records(tokens);
      assert body[..5] == Record(tokens[0]);
      assert body[5..] == Records(tokens[1..]);
      RecordRoundTrip(tokens[0]);
      ParseRecordsOfRecords(tokens[1..]);
    }
  }

  /** ...and every run of whole records is the records of the tokens read from it. */
  lemma {:induction false} RecordsOfParseRecords(body: seq<byte>)
    requires |body| % 5 == 0
    ensures Records(ParseRecords(body)) == body
    decreases |body|
  {
    if |body| > 0 {
      var tokens := ParseRecords(body);
      assert tokens[0] == ParseRecord(body[..5]);
      assert tokens[1..] == ParseRecords(body[5..]);
      ParseRecordRoundTrip(body[..5]);
      RecordsOfParseRecords(body[5..]);
      assert body == body[..5] + body[5..];
    }
  }

  // ---------------------------------------------------------------------------
  // Saving
  // ---------------------------------------------------------------------------

  /** The bytes the save routine writes, or the error it raises. */
  function Serialized(v: Variant, tokens: seq<Token>): (r: Result<seq<byte>, SaveError>)
    ensures r.Ok? ==> |r.value| == 5 * |tokens| + 4
  {
    if !AllFit(tokens) then Err(FieldOutOfRange)
    else
      var body := Records(tokens);
      Ok(body + U32Bytes(ChecksumOf(v, body)))
  }

  /** The save routine: pack each token, then append the checksum of the records. */
  method Save(v: Variant, tokens: seq<Token>) returns (r: Result<seq<byte>, SaveError>)
    ensures r == Serialized(v, tokens)
  {
    var body: seq<byte> := [];
    var k := 0;
    while k < |tokens|
      invariant k <= |tokens|
      invariant AllFit(tokens[..k])
      invariant body == Records(tokens[..k])
    {
      var t := tokens[k];
      if !(t.offset < 0x1_0000 && t.length < 0x1_0000) {
        return Err(FieldOutOfRange);
      }
      RecordsAppend(tokens[..k], [t]);
      assert tokens[..k + 1] == tokens[..k] + [t];
      body := body + (U16Bytes(t.offset) + U16Bytes(t.length) + [t.symbol]);
      k := k + 1;
    }
    assert tokens[..k] == tokens;
    var crc := ComputeChecksum(v, body);
    r := Ok(body + U32Bytes(crc));
  }

  /** A saved file is the records, one per token, followed by the checksum of the
      records; saving fails exactly when some field does not fit in 16 bits. */
  lemma SerializedLayout(v: Variant, tokens: seq<Token>)
    ensures Serialized(v, tokens).Ok? <==> AllFit(tokens)
    ensures Serialized(v, tokens).Ok? ==>
      var file := Serialized(v, tokens).value;
      var n := 5 * |tokens|;
      |file| == n + 4 &&
      ParseRecords(file[..n]) == tokens &&
      U32Value(file[n..]) == ChecksumOf(v, file[..n])
  {
    if AllFit(tokens) {
      var body := Records(tokens);
      var file := body + U32Bytes(ChecksumOf(v, body));
      assert file[..|body|] == body && file[|body|..] == U32Bytes(ChecksumOf(v, body));
      ParseRecordsOfRecords(tokens);
      U32RoundTrip(ChecksumOf(v, body));
    }
  }

  // ---------------------------------------------------------------------------
  // Loading
  // ---------------------------------------------------------------------------

  /** The tokens the load routine returns, or the error it raises. */
  function Parsed(v: Variant, content: seq<byte>): (r: Result<seq<Token>, LoadError>)
    ensures r.Ok? ==> 5 * |r.value| + 4 == |content|
  {
    if |content| < 4 then Err(MissingChecksum)
    else
      var body := content[..|content| - 4];
      var stored := U32Value(content[|content| - 4..]);
      if ChecksumOf(v, body) != stored then Err(ChecksumMismatch)
      else if |body| % 5 != 0 then Err(MisalignedRecords)
      else Ok(ParseRecords(body))
  }

  lemma ParseRecordsCons(body: seq<byte>, i: nat)
    requires i < |body| && |body| % 5 == 0 && i % 5 == 0
    ensures i + 5 <= |body|
    ensures ParseRecords(body[i..]) ==
      [Token(U16Value(body[i], body[i + 1]), U16Value(body[i + 2], body[i + 3]), body[i + 4])] +
      ParseRecords(body[i + 5..])
  {
    assert body[i..][..5] == body[i..i + 5];
    assert body[i..][5..] == body[i + 5..];
  }

  /** The records left after one more record are still whole records. */
  lemma NextRecordBounds(n: nat, i: nat)
    requires i < n && n % 5 == 0 && i % 5 == 0
    ensures i + 5 <= n && (i + 5) % 5 == 0 && (n - (i + 5)) % 5 == 0
  {
  }

  /** The load routine: check the trailer, then unpack five bytes at a time. */
  method Load(v: Variant, content: seq<byte>) returns (r: Result<seq<Token>, LoadError>)
    ensures r == Parsed(v, content)
  {
    if |content| < 4 {
      return Err(MissingChecksum);
    }
    var stored := U32Value(content[|content| - 4..]);
    var body := content[..|content| - 4];
    var crc := ComputeChecksum(v, body);
    if crc != stored {
      return Err(ChecksumMismatch);
    }
    if |body| % 5 != 0 {
      return Err(MisalignedRecords);
    }
    var tokens := UnpackRecords(body);
    return Ok(tokens);
  }

  /** The unpacking loop of the load routine: one token per five bytes. */
  method UnpackRecords(body: seq<byte>) returns (tokens: seq<Token>)
    requires |body| % 5 == 0
    ensures tokens == ParseRecords(body)
  {
    tokens := [];
    var i := 0;
    while i < |body|
      invariant i <= |body| && i % 5 == 0
      invariant tokens + ParseRecords(body[i..]) == ParseRecords(body)
    {
      var t := Token(U16Value(body[i], body[i + 1]), U16Value(body[i + 2], body[i + 3]), body[i + 4]);
      NextRecordBounds(|body|, i);
      ParseRecordsCons(body, i);
      AppendAssoc(tokens, [t], ParseRecords(body[i + 5..]));
      tokens := tokens + [t];
      i := i + 5;
    }
    assert body[i..] == [];
  }

  /** Loading a saved file gives back the tokens that were saved... */
  lemma SaveLoadRoundTrip(v: Variant, tokens: seq<Token>)
    requires Serialized(v, tokens).Ok?
    ensures Parsed(v, Serialized(v, tokens).value) == Ok(tokens)
  {
    SerializedLayout(v, tokens);
  }

  /** ...and every file that loads is the saved form of the tokens it loads to. */
  lemma LoadSaveRoundTrip(v: Variant, content: seq<byte>)
    requires Parsed(v, content).Ok?
    ensures Serialized(v, Parsed(v, content).value) == Ok(content)
  {
    var body := content[..|content| - 4];
    var trailer := content[|content| - 4..];
    RecordsOfParseRecords(body);
    assert content == body + trailer;
  }

  /** Whichever routine saved it, a file changed in any single byte fails to load
      with a checksum error: a change in the records is caught by the checksum, a
      change in the trailer by the stored value. */
  lemma CorruptionDetected(v: Variant, tokens: seq<Token>, k: nat, b: byte)
    requires Serialized(v, tokens).Ok?
    requires k < |Serialized(v, tokens).value| && Serialized(v, tokens).value[k] != b
    ensures Parsed(v, Serialized(v, tokens).value[k := b]) == Err(ChecksumMismatch)
  {
    SerializedLayout(v, tokens);
    var file := Serialized(v, tokens).value;
    var n := 5 * |tokens|;
    if k < n {
      var body, corrupt := file[..n], file[k := b];
      var body' := corrupt[..n];
      assert corrupt[n..] == file[n..];
      assert body'[k] == b;
      ChecksumSingleByteErrorDetected(v, body, body', k);
    } else {
      TrailerCorruptionDetected(v, tokens, k, b);
    }
  }

  /** Whichever routine saved it, a file whose checksum trailer is changed in any
      single byte fails to load with a checksum error. */
  lemma TrailerCorruptionDetected(v: Variant, tokens: seq<Token>, k: nat, b: byte)
    requires Serialized(v, tokens).Ok?
    requires 5 * |tokens| <= k < |Serialized(v, tokens).value| && Serialized(v, tokens).value[k] != b
    ensures Parsed(v, Serialized(v, tokens).value[k := b]) == Err(ChecksumMismatch)
  {
    SerializedLayout(v, tokens);
    var file := Serialized(v, tokens).value;
    var n := 5 * |tokens|;
    var trailer := file[n..];
    var corrupt := file[k := b];
    var trailer' := corrupt[n..];
    assert corrupt[..n] == file[..n];
    assert trailer'[k - n] == b;
    assert U32Value(trailer') != U32Value(trailer);
  }

  /** A file whose checksum matches but whose records are not whole five-byte units
      fails to load with a format error. */
  lemma MisalignedDetected(v: Variant, body: seq<byte>)
    requires |body| % 5 != 0
    ensures Parsed(v, body + U32Bytes(ChecksumOf(v, body))) == Err(MisalignedRecords)
  {
    var content := body + U32Bytes(ChecksumOf(v, body));
    assert content[..|content| - 4] == body;
    assert content[|content| - 4..] == U32Bytes(ChecksumOf(v, body));
    U32RoundTrip(ChecksumOf(v, body));
  }

  /** The encoder's tokens can always be saved when the window is smaller than the
      16-bit field limit, as the program's window of 4096 is. */
  lemma EncodedFits(v: Variant, data: seq<byte>, window: int)
    requires window < U16Limit
    ensures AllFit(Encoded(data, window))
    ensures Serialized(v, Encoded(data, window)).Ok?
  {
    EncodedWithinWindow(data, window);
    var tokens := Encoded(data, window);
    forall i | 0 <= i < |tokens|
      ensures Fits(tokens[i])
    {
      assert tokens[i] in tokens;
    }
  }
}
