/**
 * The match finder of the LZ77 coder: for a position in the input, the longest
 * earlier run of bytes, inside a sliding window, that the bytes at the position repeat.
 *
 * A candidate run starts at `p < pos` and may not reach `pos` itself (the source
 * never lets a match overlap the bytes it encodes). Candidates are tried from the
 * nearest (`pos - 1`) to the farthest (`max(0, pos - window)`), and a later candidate
 * replaces the best so far only when it is strictly longer, so among the longest
 * matches the nearest one wins.
 */
module MatchFinder {
  import opened LittleEndian

  /** The `len` bytes from `p` equal the `len` bytes from `pos`, the run from `p`
      ends at or before `pos`, and the run from `pos` lies inside `data`. */
  predicate Matches(data: seq<byte>, p: nat, pos: nat, len: nat) {
    p + len <= pos && pos + len <= |data| && data[p..p + len] == data[pos..pos + len]
  }

  /** Grow a match of length `dl` from candidate `p` one byte at a time, as long as
      it stays before `pos`, inside `data`, and the bytes agree. */
  function Extend(data: seq<byte>, p: nat, pos: nat, dl: nat): (len: nat)
    decreases pos - p - dl
  {
    if p + dl < pos && pos + dl < |data| && data[p + dl] == data[pos + dl]
    then Extend(data, p, pos, dl + 1)
    else dl
  }

  /** The length the inner loop of the match finder reaches for candidate `p`. */
  function MatchLength(data: seq<byte>, p: nat, pos: nat): (len: nat) {
    Extend(data, p, pos, 0)
  }

  /** A match is also a match of every shorter length. */
  lemma MatchesPrefix(data: seq<byte>, p: nat, pos: nat, len: nat, k: nat)
    requires Matches(data, p, pos, len) && k <= len
    ensures Matches(data, p, pos, k)
  {
    assert data[p..p + k] == data[p..p + len][..k];
    assert data[pos..pos + k] == data[pos..pos + len][..k];
  }

  /** A match grows by one byte exactly when the next bytes agree. */
  lemma MatchesOneMore(data: seq<byte>, p: nat, pos: nat, dl: nat)
    requires Matches(data, p, pos, dl) && p + dl < pos && pos + dl < |data|
    ensures Matches(data, p, pos, dl + 1) <==> data[p + dl] == data[pos + dl]
  {
    assert data[p..p + dl + 1] == data[p..p + dl] + [data[p + dl]];
    assert data[pos..pos + dl + 1] == data[pos..pos + dl] + [data[pos + dl]];
    if Matches(data, p, pos, dl + 1) {
      assert data[p..p + dl + 1][dl] == data[pos..pos + dl + 1][dl];
    }
  }

  /** Extending a match stops exactly at the longest match. */
  lemma {:induction false} ExtendIsMaximal(data: seq<byte>, p: nat, pos: nat, dl: nat)
    requires Matches(data, p, pos, dl)
    ensures dl <= Extend(data, p, pos, dl)
    ensures Matches(data, p, pos, Extend(data, p, pos, dl))
    ensures !Matches(data, p, pos, Extend(data, p, pos, dl) + 1)
    decreases pos - p - dl
  {
    if p + dl < pos && pos + dl < |data| {
      MatchesOneMore(data, p, pos, dl);
      if data[p + dl] == data[pos + dl] {
        ExtendIsMaximal(data, p, pos, dl + 1);
      }
    }
  }

  /** The match length of a candidate is the largest length at which it matches:
      it matches at every length up to it and at none beyond. */
  lemma MatchLengthIsLongest(data: seq<byte>, p: nat, pos: nat, k: nat)
    requires p < pos
    ensures Matches(data, p, pos, k) <==> pos <= |data| && k <= MatchLength(data, p, pos)
  {
    if pos <= |data| {
      assert Matches(data, p, pos, 0);
      ExtendIsMaximal(data, p, pos, 0);
      var m := MatchLength(data, p, pos);
      if k <= m {
        MatchesPrefix(data, p, pos, m, k);
      } else if Matches(data, p, pos, k) {
        MatchesPrefix(data, p, pos, k, m + 1);
      }
    }
  }

  /** The first candidate the loop tries: `max(0, pos - window)`. */
  function WindowStart(pos: nat, window: int): (start: nat) {
    if pos - window > 0 then pos - window else 0
  }

  /** The best `(offset, length)` after the loop has tried the candidates `pos - 1`
      down to `q`. */
  function Scan(data: seq<byte>, pos: nat, q: nat): (best: (nat, nat))
    decreases pos - q
  {
    if q >= pos then (0, 0)
    else
      var best := Scan(data, pos, q + 1);
      var dl := MatchLength(data, q, pos);
      if dl > best.1 then (pos - q, dl) else best
  }

  /** The result of the match finder for position `pos` and window size `window`. */
  function LongestMatch(data: seq<byte>, pos: nat, window: int): (best: (nat, nat)) {
    Scan(data, pos, WindowStart(pos, window))
  }

  /** What the scan over the candidates `q .. pos - 1` yields: no match is reported
      as `(0, 0)`; a reported match starts at a candidate and has the reported length;
      no candidate matches longer; and no nearer candidate matches as long. */
  lemma {:induction false} ScanIsNearestLongest(data: seq<byte>, pos: nat, q: nat)
    ensures Scan(data, pos, q).1 == 0 <==> Scan(data, pos, q).0 == 0
    ensures Scan(data, pos, q).1 > 0 ==>
      1 <= Scan(data, pos, q).0 <= pos - q &&
      MatchLength(data, pos - Scan(data, pos, q).0, pos) == Scan(data, pos, q).1
    ensures forall p :: q <= p < pos ==> MatchLength(data, p, pos) <= Scan(data, pos, q).1
    ensures forall p :: pos - Scan(data, pos, q).0 < p < pos ==>
      MatchLength(data, p, pos) < Scan(data, pos, q).1
    decreases pos - q
  {
    if q < pos {
      ScanIsNearestLongest(data, pos, q + 1);
    }
  }

  /** The match finder's result in terms of matches: the longest match in the window,
      the nearest among the longest, never farther back than the window reaches. */
  lemma LongestMatchIsNearestLongest(data: seq<byte>, pos: nat, window: int)
    ensures var (offset, length) := LongestMatch(data, pos, window);
      (length == 0 <==> offset == 0) &&
      (length > 0 ==>
        1 <= offset <= pos - WindowStart(pos, window) && offset <= window &&
        Matches(data, pos - offset, pos, length)) &&
      (forall p: nat, k: nat :: WindowStart(pos, window) <= p < pos && Matches(data, p, pos, k) ==> k <= length) &&
      (forall p: nat, k: nat :: pos - offset < p < pos && Matches(data, p, pos, k) ==> k < length)
  {
    var q := WindowStart(pos, window);
    var (offset, length) := LongestMatch(data, pos, window);
    ScanIsNearestLongest(data, pos, q);
    if length > 0 {
      MatchLengthIsLongest(data, pos - offset, pos, length);
    }
    forall p: nat, k: nat | q <= p < pos && Matches(data, p, pos, k)
      ensures k <= length
    {
      MatchLengthIsLongest(data, p, pos, k);
    }
    forall p: nat, k: nat | pos - offset < p < pos && Matches(data, p, pos, k)
      ensures k < length
    {
      MatchLengthIsLongest(data, p, pos, k);
    }
  }

  /** The inner loop of the match finder: extend the match from candidate `p`
      while it stays before `pos`, inside `data`, and the bytes agree. */
  method ExtendMatch(data: seq<byte>, p: nat, pos: nat) returns (dl: nat)
    ensures dl == MatchLength(data, p, pos)
    ensures p < pos ==> Matches(data, p, pos, dl) || (dl == 0 && pos > |data|)
    ensures !Matches(data, p, pos, dl + 1)
  {
    dl := 0;
    while p + dl < pos && pos + dl < |data| && data[p + dl] == data[pos + dl]
      invariant Extend(data, p, pos, dl) == MatchLength(data, p, pos)
      decreases pos - p - dl
    {
      dl := dl + 1;
    }
    if p < pos {
      MatchLengthIsLongest(data, p, pos, dl);
      MatchLengthIsLongest(data, p, pos, dl + 1);
    }
  }

  /** The match finder: candidates from the nearest to the farthest, each extended
      byte by byte, the best replaced only by a strictly longer match. */
  method FindLongestMatch(data: seq<byte>, pos: nat, window: int) returns (offset: nat, length: nat)
    ensures (offset, length) == LongestMatch(data, pos, window)
    ensures length == 0 <==> offset == 0
    ensures length > 0 ==> 1 <= offset <= pos && offset <= window && Matches(data, pos - offset, pos, length)
    ensures forall p: nat, k: nat :: WindowStart(pos, window) <= p < pos && Matches(data, p, pos, k) ==> k <= length
    ensures forall p: nat, k: nat :: pos - offset < p < pos && Matches(data, p, pos, k) ==> k < length
  {
    offset, length := 0, 0;
    var start: nat := if pos - window > 0 then pos - window else 0;
    var p: nat := pos;
    while p > start
      invariant p <= pos
      invariant start < pos ==> start <= p
      invariant start >= pos ==> p == pos
      invariant (offset, length) == Scan(data, pos, p)
    {
      p := p - 1;
      var dl := ExtendMatch(data, p, pos);
      if dl > length {
        length := dl;
        offset := pos - p;
      }
    }
    LongestMatchIsNearestLongest(data, pos, window);
  }
}
