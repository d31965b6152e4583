/**
 * The LZ77 token coder: the encoder that turns a byte string into
 * `(offset, length, symbol)` tokens with the match finder, and the decoder that
 * replays the tokens, copying `length` bytes from `offset` bytes back and then
 * appending `symbol`.
 */
module TokenCodec {
  import opened Wrappers
  import opened LittleEndian
  import opened MatchFinder

  /** A token. `offset == 0 && length == 0` marks a literal: only `symbol` is output. */
  datatype Token = Token(offset: nat, length: nat, symbol: byte)

  predicate IsLiteral(t: Token) {
    t.offset == 0 && t.length == 0
  }

  /** The window size the program uses. */
  const DefaultWindow: int := 4096

  /** The number of bytes a token stands for: the copied run and the symbol. */
  function Span(tokens: seq<Token>): (n: nat) {
    if |tokens| == 0 then 0 else tokens[0].length + 1 + Span(tokens[1..])
  }

  lemma {:induction false} SpanBoundsCount(tokens: seq<Token>)
    ensures |tokens| <= Span(tokens)
  {
    if |tokens| > 0 {
      SpanBoundsCount(tokens[1..]);
    }
  }

  // ---------------------------------------------------------------------------
  // Encoder
  // ---------------------------------------------------------------------------

  /** The token the encoder emits at `pos`: the longest match followed by the byte
      after it when the match is non-empty and does not reach the end of the input,
      a literal otherwise. The token always stands for the bytes `pos` to
      `pos + length`, its symbol being the last of them. */
  function NextToken(data: seq<byte>, window: int, pos: nat): (t: Token)
    requires pos < |data|
    ensures pos + t.length < |data| && t.symbol == data[pos + t.length]
  {
    var m := LongestMatch(data, pos, window);
    if m.1 > 0 && pos + m.1 < |data| then Token(m.0, m.1, data[pos + m.1])
    else Token(0, 0, data[pos])
  }

  /** The tokens the encoder emits from position `pos` on. */
  function EncodedFrom(data: seq<byte>, window: int, pos: nat): (tokens: seq<Token>)
    decreases |data| - pos
  {
    if pos >= |data| then []
    else
      var t := NextToken(data, window, pos);
      [t] + EncodedFrom(data, window, pos + t.length + 1)
  }

  function Encoded(data: seq<byte>, window: int): (tokens: seq<Token>) {
    EncodedFrom(data, window, 0)
  }

  lemma AppendAssoc(a: seq<Token>, b: seq<Token>, c: seq<Token>)
    ensures a + (b + c) == (a + b) + c
  {
  }

  /** The encoder loop. */
  method Encode(data: seq<byte>, window: int) returns (tokens: seq<Token>)
    ensures tokens == Encoded(data, window)
  {
    var pos: nat := 0;
    var n := |data|;
    tokens := [];
    while pos < n
      invariant pos <= n
      invariant tokens + EncodedFrom(data, window, pos) == Encoded(data, window)
      decreases n - pos
    {
      var offset, dl := FindLongestMatch(data, pos, window);
      var t;
      if dl > 0 && pos + dl < n {
        var symbol := data[pos + dl];
        t := Token(offset, dl, symbol);
      } else {
        t := Token(0, 0, data[pos]);
      }
      assert t == NextToken(data, window, pos);
      AppendAssoc(tokens, [t], EncodedFrom(data, window, pos + t.length + 1));
      tokens := tokens + [t];
      pos := pos + t.length + 1;
    }
  }

  /** Every token the encoder emits is a literal, or a back-reference of at least
      one byte that reaches no farther back than the window and does not overlap the
      bytes it encodes. */
  predicate WithinWindow(t: Token, window: int) {
    IsLiteral(t) || (1 <= t.length <= t.offset && t.offset <= window)
  }

  lemma NextTokenWithinWindow(data: seq<byte>, window: int, pos: nat)
    requires pos < |data|
    ensures WithinWindow(NextToken(data, window, pos), window)
  {
    LongestMatchIsNearestLongest(data, pos, window);
  }

  lemma {:induction false} EncodedFromWithinWindow(data: seq<byte>, window: int, pos: nat)
    ensures forall t :: t in EncodedFrom(data, window, pos) ==> WithinWindow(t, window)
    decreases |data| - pos
  {
    if pos < |data| {
      var t := NextToken(data, window, pos);
      NextTokenWithinWindow(data, window, pos);
      EncodedFromWithinWindow(data, window, pos + t.length + 1);
    }
  }

  lemma EncodedWithinWindow(data: seq<byte>, window: int)
    ensures forall t :: t in Encoded(data, window) ==> WithinWindow(t, window)
  {
    EncodedFromWithinWindow(data, window, 0);
  }

  /** The tokens from `pos` on stand for exactly the bytes from `pos` on. */
  lemma {:induction false} EncodedFromSpan(data: seq<byte>, window: int, pos: nat)
    requires pos <= |data|
    ensures Span(EncodedFrom(data, window, pos)) == |data| - pos
    decreases |data| - pos
  {
    if pos < |data| {
      var t := NextToken(data, window, pos);
      var ts := EncodedFrom(data, window, pos);
      EncodedFromSpan(data, window, pos + t.length + 1);
      assert ts[1..] == EncodedFrom(data, window, pos + t.length + 1);
    }
  }

  /** The encoder never emits more tokens than there are input bytes. */
  lemma EncodedCount(data: seq<byte>, window: int)
    ensures Span(Encoded(data, window)) == |data|
    ensures |Encoded(data, window)| <= |data|
  {
    EncodedFromSpan(data, window, 0);
    SpanBoundsCount(Encoded(data, window));
  }

  // ---------------------------------------------------------------------------
  // Decoder
  // ---------------------------------------------------------------------------

  /** The one way decoding fails: a copy reads outside the output produced so far. */
  datatype DecodeError = IndexOutOfRange

  /** Whether `idx` is a valid list index on a list of `n` elements, where a negative
      index counts from the end. */
  predicate IndexInRange(n: nat, idx: int) {
    -(n as int) <= idx < n
  }

  /** The element at list index `idx`, a negative index counting from the end. */
  function IndexAt(out: seq<byte>, idx: int): (b: byte)
    requires IndexInRange(|out|, idx)
    ensures b == out[idx % |out|]
  {
    if idx >= 0 then out[idx] else out[|out| + idx]
  }

  /** The copy loop from its `i`-th step on: each step appends the byte at index
      `start + i` of the output as it is at that step. */
  function CopyFrom(out: seq<byte>, start: int, i: nat, n: nat): (r: Result<seq<byte>, DecodeError>)
    decreases n - i
  {
    if i >= n then Ok(out)
    else if !IndexInRange(|out|, start + i) then Err(IndexOutOfRange)
    else CopyFrom(out + [IndexAt(out, start + i)], start, i + 1, n)
  }

  /** One token applied to the output produced so far. */
  function Apply(out: seq<byte>, t: Token): (r: Result<seq<byte>, DecodeError>) {
    if IsLiteral(t) then Ok(out + [t.symbol])
    else
      match CopyFrom(out, |out| - t.offset, 0, t.length)
      case Err(e) => Err(e)
      case Ok(copied) => Ok(copied + [t.symbol])
  }

  function DecodeFrom(out: seq<byte>, tokens: seq<Token>): (r: Result<seq<byte>, DecodeError>)
    decreases |tokens|
  {
    if |tokens| == 0 then Ok(out)
    else
      match Apply(out, tokens[0])
      case Err(e) => Err(e)
      case Ok(next) => DecodeFrom(next, tokens[1..])
  }

  function Decoded(tokens: seq<Token>): (r: Result<seq<byte>, DecodeError>) {
    DecodeFrom([], tokens)
  }

  /** The decoder loop, with the copy loop inside it. */
  method Decode(tokens: seq<Token>) returns (r: Result<seq<byte>, DecodeError>)
    ensures r == Decoded(tokens)
  {
    var out: seq<byte> := [];
    var k := 0;
    while k < |tokens|
      invariant k <= |tokens|
      invariant DecodeFrom(out, tokens[k..]) == Decoded(tokens)
    {
      var t := tokens[k];
      assert tokens[k..][0] == t && tokens[k..][1..] == tokens[k + 1..];
      if t.offset == 0 && t.length == 0 {
        out := out + [t.symbol];
      } else {
        var before := out;
        var start := |out| - t.offset;
        var i := 0;
        while i < t.length
          invariant i <= t.length
          invariant CopyFrom(out, start, i, t.length) == CopyFrom(before, start, 0, t.length)
        {
          var idx := start + i;
          if !(-|out| <= idx < |out|) {
            return Err(IndexOutOfRange);
          }
          var b := if idx >= 0 then out[idx] else out[|out| + idx];
          out := out + [b];
          i := i + 1;
        }
        out := out + [t.symbol];
      }
      k := k + 1;
    }
    return Ok(out);
  }

  /** A successful copy keeps the output produced so far and appends one byte per
      remaining step. */
  lemma {:induction false} CopyFromExtends(out: seq<byte>, start: int, i: nat, n: nat)
    requires i <= n && CopyFrom(out, start, i, n).Ok?
    ensures |CopyFrom(out, start, i, n).value| == |out| + (n - i)
    ensures CopyFrom(out, start, i, n).value[..|out|] == out
    decreases n - i
  {
    if i < n {
      var next := out + [IndexAt(out, start + i)];
      CopyFromExtends(next, start, i + 1, n);
      assert CopyFrom(out, start, i, n).value[..|next|][..|out|] == next[..|out|];
    }
  }

  /** A successful decoding keeps the output produced so far and appends exactly
      the bytes the tokens stand for. */
  lemma {:induction false} DecodeFromExtends(out: seq<byte>, tokens: seq<Token>)
    requires DecodeFrom(out, tokens).Ok?
    ensures |DecodeFrom(out, tokens).value| == |out| + Span(tokens)
    ensures DecodeFrom(out, tokens).value[..|out|] == out
    decreases |tokens|
  {
    if |tokens| > 0 {
      var t := tokens[0];
      var next := Apply(out, t).value;
      if !IsLiteral(t) {
        CopyFromExtends(out, |out| - t.offset, 0, t.length);
        var copied := CopyFrom(out, |out| - t.offset, 0, t.length).value;
        assert next[..|out|] == copied[..|out|];
      }
      assert |next| == |out| + t.length + 1 && next[..|out|] == out;
      DecodeFromExtends(next, tokens[1..]);
      assert DecodeFrom(out, tokens).value[..|next|][..|out|] == next[..|out|];
    }
  }

  /** The output of a successful decoding is as long as the tokens' span. */
  lemma DecodedLength(tokens: seq<Token>)
    requires Decoded(tokens).Ok?
    ensures |Decoded(tokens).value| == Span(tokens)
  {
    DecodeFromExtends([], tokens);
  }

  /** A back-reference that stays inside the output produced so far: the copy
      succeeds, and every appended byte equals the byte `offset` positions before it,
      so a run longer than its offset repeats the bytes it has just appended. */
  lemma {:induction false} CopyFromWithinOutput(out: seq<byte>, start: int, i: nat, n: nat)
    requires i <= n
    requires 0 <= start && start + i < |out|
    ensures CopyFrom(out, start, i, n).Ok?
    ensures var r := CopyFrom(out, start, i, n).value;
      |r| == |out| + (n - i) && r[..|out|] == out &&
      forall j :: |out| <= j < |r| ==> r[j] == r[j - (|out| - (start + i))]
    decreases n - i
  {
    if i < n {
      var next := out + [out[start + i]];
      CopyFromWithinOutput(next, start, i + 1, n);
      var r := CopyFrom(out, start, i, n).value;
      assert r[..|next|] == next;
      assert r[..|out|] == next[..|out|];
    }
  }

  /** A token whose offset reaches no farther back than the output produced so far
      decodes without error into the copied run followed by the symbol. */
  lemma ApplyWithinOutput(out: seq<byte>, t: Token)
    requires 1 <= t.offset <= |out|
    ensures Apply(out, t).Ok?
    ensures var r := Apply(out, t).value;
      |r| == |out| + t.length + 1 && r[..|out|] == out && r[|r| - 1] == t.symbol &&
      forall j :: |out| <= j < |r| - 1 ==> r[j] == r[j - t.offset]
  {
    CopyFromWithinOutput(out, |out| - t.offset, 0, t.length);
    var copied := CopyFrom(out, |out| - t.offset, 0, t.length).value;
    var r := copied + [t.symbol];
    assert r[..|out|] == copied[..|out|];
    forall j | |out| <= j < |r| - 1
      ensures r[j] == r[j - t.offset]
    {
      assert r[j] == copied[j] && r[j - t.offset] == copied[j - t.offset];
    }
  }

  /** A copy whose next index is a valid list index never fails: each step appends
      one byte and moves the index on by one, so the index stays valid. */
  lemma {:induction false} CopyFromInRange(out: seq<byte>, start: int, i: nat, n: nat)
    requires i < n ==> IndexInRange(|out|, start + i)
    ensures CopyFrom(out, start, i, n).Ok?
    decreases n - i
  {
    if i < n {
      CopyFromInRange(out + [IndexAt(out, start + i)], start, i + 1, n);
    }
  }

  /** A token reaches outside an output of `n` bytes when its run is non-empty and
      its first index is past the end (offset 0) or lies before the start even when
      counted from the end (offset beyond `2 * n`). */
  predicate ReachesOutside(n: nat, t: Token) {
    t.length > 0 && (t.offset == 0 || t.offset > 2 * n)
  }

  /** Applying a token fails exactly when it reaches outside the output produced so
      far; every other token, including one read with negative indices, succeeds. */
  lemma ApplyFailsIff(out: seq<byte>, t: Token)
    ensures Apply(out, t).Err? <==> ReachesOutside(|out|, t)
  {
    if !IsLiteral(t) && !ReachesOutside(|out|, t) {
      CopyFromInRange(out, |out| - t.offset, 0, t.length);
    }
  }

  /** The span of a non-empty prefix: its first token's run and symbol, then the
      rest of the prefix. */
  lemma SpanOfPrefix(tokens: seq<Token>, j: nat)
    requires 1 <= j <= |tokens|
    ensures Span(tokens[..j]) == tokens[0].length + 1 + Span(tokens[1..][..j - 1])
  {
    assert tokens[..j][1..] == tokens[1..][..j - 1];
  }

  /** The `j`-th token reaches outside the output in front of it, when the first
      token finds `n` bytes already output. */
  predicate ReachesOutsideAt(n: nat, tokens: seq<Token>, j: nat)
    requires j < |tokens|
  {
    ReachesOutside(n + Span(tokens[..j]), tokens[j])
  }

  /** Some token reaches outside the output in front of it, when the first token
      finds `n` bytes already output. */
  predicate SomeReachesOutside(n: nat, tokens: seq<Token>)
    decreases |tokens|
  {
    |tokens| > 0 &&
    (ReachesOutside(n, tokens[0]) || SomeReachesOutside(n + tokens[0].length + 1, tokens[1..]))
  }

  /** The recursive form of "some token reaches outside" agrees with the indexed one. */
  lemma {:induction false} SomeReachesOutsideIff(n: nat, tokens: seq<Token>)
    ensures SomeReachesOutside(n, tokens) <==>
      exists j :: 0 <= j < |tokens| && ReachesOutsideAt(n, tokens, j)
    decreases |tokens|
  {
    if |tokens| > 0 {
      var t, rest := tokens[0], tokens[1..];
      var m := n + t.length + 1;
      SomeReachesOutsideIff(m, rest);
      assert tokens[..0] == [];
      if ReachesOutside(n, t) {
        assert ReachesOutsideAt(n, tokens, 0);
      } else {
        if SomeReachesOutside(m, rest) {
          var j :| 0 <= j < |rest| && ReachesOutsideAt(m, rest, j);
          SpanOfPrefix(tokens, j + 1);
          assert ReachesOutsideAt(n, tokens, j + 1);
        }
        if exists j :: 0 <= j < |tokens| && ReachesOutsideAt(n, tokens, j) {
          var j :| 0 <= j < |tokens| && ReachesOutsideAt(n, tokens, j);
          assert j != 0;
          SpanOfPrefix(tokens, j);
          assert ReachesOutsideAt(m, rest, j - 1);
        }
      }
    }
  }

  /** A token applied without error adds its run and its symbol to the output. */
  lemma ApplyLength(out: seq<byte>, t: Token)
    requires Apply(out, t).Ok?
    ensures |Apply(out, t).value| == |out| + t.length + 1
  {
    if !IsLiteral(t) {
      CopyFromExtends(out, |out| - t.offset, 0, t.length);
    }
  }

  /** Decoding after `out` fails exactly when some token reaches outside the output
      in front of it. */
  lemma {:induction false} DecodeFromFailsWhenReachingOutside(out: seq<byte>, tokens: seq<Token>)
    ensures DecodeFrom(out, tokens).Err? <==> SomeReachesOutside(|out|, tokens)
    decreases |tokens|
  {
    if |tokens| > 0 {
      ApplyFailsIff(out, tokens[0]);
      if Apply(out, tokens[0]).Ok? {
        var next := Apply(out, tokens[0]).value;
        ApplyLength(out, tokens[0]);
        DecodeFromCons(out, tokens, next);
        DecodeFromFailsWhenReachingOutside(next, tokens[1..]);
      }
    }
  }

  /** Decoding after `out` fails exactly when some token reaches outside the output
      its predecessors leave, whose length is `|out|` plus their span: whether
      decoding fails depends on offsets and lengths only, never on the bytes. */
  lemma DecodeFromFailsIff(out: seq<byte>, tokens: seq<Token>)
    ensures DecodeFrom(out, tokens).Err? <==>
      exists j :: 0 <= j < |tokens| && ReachesOutsideAt(|out|, tokens, j)
  {
    DecodeFromFailsWhenReachingOutside(out, tokens);
    SomeReachesOutsideIff(|out|, tokens);
  }

  /** Decoding fails exactly when some token reaches outside the output decoded from
      the tokens before it. */
  lemma DecodedFailsIff(tokens: seq<Token>)
    ensures Decoded(tokens).Err? <==>
      exists j :: 0 <= j < |tokens| && ReachesOutsideAt(0, tokens, j)
  {
    DecodeFromFailsIff([], tokens);
  }

  // ---------------------------------------------------------------------------
  // Round trip
  // ---------------------------------------------------------------------------

  /** Copying a match of `data` at `pos` from candidate `p` rebuilds the matched bytes. */
  lemma {:induction false} CopyFromMatch(data: seq<byte>, pos: nat, p: nat, i: nat, n: nat)
    requires i <= n && p < pos && pos + n <= |data|
    requires data[p..p + n] == data[pos..pos + n]
    ensures CopyFrom(data[..pos + i], p, i, n) == Ok(data[..pos + n])
    decreases n - i
  {
    if i < n {
      assert data[p..p + n][i] == data[pos..pos + n][i];
      assert data[..pos + i] + [data[..pos + i][p + i]] == data[..pos + i + 1];
      CopyFromMatch(data, pos, p, i + 1, n);
    }
  }

  lemma DecodeFromCons(out: seq<byte>, tokens: seq<Token>, next: seq<byte>)
    requires |tokens| > 0 && Apply(out, tokens[0]) == Ok(next)
    ensures DecodeFrom(out, tokens) == DecodeFrom(next, tokens[1..])
  {
  }

  /** The token the encoder emits at `pos` rebuilds the bytes it stands for. */
  lemma NextTokenRebuilds(data: seq<byte>, window: int, pos: nat)
    requires pos < |data|
    ensures var t := NextToken(data, window, pos);
      Apply(data[..pos], t) == Ok(data[..pos + t.length + 1])
  {
    var (offset, length) := LongestMatch(data, pos, window);
    var t := NextToken(data, window, pos);
    if length > 0 && pos + length < |data| {
      LongestMatchIsNearestLongest(data, pos, window);
      CopyFromMatch(data, pos, pos - offset, 0, length);
      assert data[..pos] == data[..pos + 0];
      assert data[..pos + length] + [t.symbol] == data[..pos + length + 1];
    } else {
      assert data[..pos] + [data[pos]] == data[..pos + 1];
    }
  }

  /** Decoding the tokens the encoder emits from `pos` on, after the bytes before
      `pos`, gives back the whole input. */
  lemma {:induction false} DecodeEncodedFrom(data: seq<byte>, window: int, pos: nat)
    requires pos <= |data|
    ensures DecodeFrom(data[..pos], EncodedFrom(data, window, pos)) == Ok(data)
    decreases |data| - pos
  {
    if pos == |data| {
      assert data[..pos] == data;
    } else {
      var t := NextToken(data, window, pos);
      var ts := EncodedFrom(data, window, pos);
      var next := pos + t.length + 1;
      assert ts[0] == t && ts[1..] == EncodedFrom(data, window, next);
      NextTokenRebuilds(data, window, pos);
      DecodeEncodedFrom(data, window, next);
      DecodeFromCons(data[..pos], ts, data[..next]);
    }
  }

  /** Decoding what the encoder emits gives back the input, for every input and
      every window size. */
  lemma RoundTrip(data: seq<byte>, window: int)
    ensures Decoded(Encoded(data, window)) == Ok(data)
  {
    DecodeEncodedFrom(data, window, 0);
    assert data[..0] == [];
  }

  // ---------------------------------------------------------------------------
  // Examples
  // ---------------------------------------------------------------------------

  /** A run: a back-reference longer than its offset copies bytes it has itself
      just appended. */
  lemma RunExample()
    ensures Decoded([Token(0, 0, 65), Token(1, 5, 66)]) == Ok([65, 65, 65, 65, 65, 65, 66])
  {
    var ts := [Token(0, 0, 65), Token(1, 5, 66)];
    var first: seq<byte> := [65];
    assert [] + [65 as byte] == first;
    assert ts[1..] == [Token(1, 5, 66)];
    ApplyWithinOutput(first, Token(1, 5, 66));
    var r := Apply(first, Token(1, 5, 66)).value;
    assert r[0] == 65;
    assert r[1] == r[0] && r[2] == r[1] && r[3] == r[2] && r[4] == r[3] && r[5] == r[4];
    assert r == [65, 65, 65, 65, 65, 65, 66];
  }

  /** A back-reference of offset 0 with a non-empty run reads one past the end of the
      output, and fails. */
  lemma ZeroOffsetFails(out: seq<byte>, t: Token)
    requires t.offset == 0 && t.length > 0
    ensures Apply(out, t) == Err(IndexOutOfRange)
  {
  }

  /** A back-reference reaching farther back than twice the output produced so far
      fails on its first byte. */
  lemma FarReferenceFails(out: seq<byte>, t: Token)
    requires t.length > 0 && t.offset > 2 * |out|
    ensures Apply(out, t) == Err(IndexOutOfRange)
  {
  }

  /** A token with an empty run outputs its symbol whatever its offset. */
  lemma EmptyRunIgnoresOffset(out: seq<byte>, t: Token)
    requires t.length == 0
    ensures Apply(out, t) == Ok(out + [t.symbol])
  {
  }

  /** A back-reference reaching past the start of the output, but by no more than
      the output's length, does not fail: its first bytes are read with negative
      list indices, counted from the end of the output. */
  lemma NegativeIndexExample()
    ensures Decoded([Token(0, 0, 65), Token(0, 0, 66), Token(3, 2, 67)]) == Ok([65, 66, 66, 65, 67])
  {
    var ts := [Token(0, 0, 65), Token(0, 0, 66), Token(3, 2, 67)];
    var one: seq<byte> := [65];
    var two: seq<byte> := [65, 66];
    assert [] + [65 as byte] == one;
    assert one + [66 as byte] == two;
    assert ts[1..] == [Token(0, 0, 66), Token(3, 2, 67)];
    assert ts[1..][1..] == [Token(3, 2, 67)];
    var three: seq<byte> := [65, 66, 66];
    var four: seq<byte> := [65, 66, 66, 65];
    assert IndexAt(two, -1) == 66;
    assert two + [66 as byte] == three;
    assert IndexAt(three, 0) == 65;
    assert three + [65 as byte] == four;
    assert CopyFrom(two, -1, 0, 2) == CopyFrom(three, -1, 1, 2);
    assert CopyFrom(three, -1, 1, 2) == CopyFrom(four, -1, 2, 2);
    assert four + [67 as byte] == [65, 66, 66, 65, 67];
  }

  /** Bytes not seen before are emitted as literals. */
  lemma EncodeDistinctExample()
    ensures Encoded([65, 66], DefaultWindow) == [Token(0, 0, 65), Token(0, 0, 66)]
  {
  }

  /** A match that would run to the end of the input leaves no byte for the symbol,
      so the encoder falls back to literals. */
  lemma EncodeTrailingMatchExample(data: seq<byte>)
    requires data == [65, 66, 65, 66]
    ensures Encoded(data, DefaultWindow)
         == [Token(0, 0, 65), Token(0, 0, 66), Token(0, 0, 65), Token(0, 0, 66)]
  {
    assert LongestMatch(data, 0, DefaultWindow) == (0, 0);
    assert MatchLength(data, 0, 1) == 0;
    assert LongestMatch(data, 1, DefaultWindow) == (0, 0);
    assert Extend(data, 0, 2, 1) == 2;
    assert MatchLength(data, 0, 2) == 2 && MatchLength(data, 1, 2) == 0;
    assert LongestMatch(data, 2, DefaultWindow) == (2, 2);
    assert MatchLength(data, 0, 3) == 0 && MatchLength(data, 1, 3) == 1 && MatchLength(data, 2, 3) == 0;
    assert Scan(data, 3, 1) == (2, 1);
    assert LongestMatch(data, 3, DefaultWindow) == (2, 1);
    assert EncodedFrom(data, DefaultWindow, 3) == [Token(0, 0, 66)];
    assert EncodedFrom(data, DefaultWindow, 2) == [Token(0, 0, 65), Token(0, 0, 66)];
    assert EncodedFrom(data, DefaultWindow, 1) == [Token(0, 0, 66), Token(0, 0, 65), Token(0, 0, 66)];
  }

  /** A match followed by another byte becomes one back-reference carrying that byte. */
  lemma EncodeMatchExample()
    ensures Encoded([65, 66, 65, 66, 88], DefaultWindow)
         == [Token(0, 0, 65), Token(0, 0, 66), Token(2, 2, 88)]
  {
  }

  /** Among candidates matching equally long, the nearest one is taken. */
  lemma EncodeNearestExample()
    ensures Encoded([65, 65, 66, 65, 67], DefaultWindow)
         == [Token(0, 0, 65), Token(1, 1, 66), Token(2, 1, 67)]
  {
  }
}
