/** Lazy, greedy and run-length parsing: one step of tdefl_compress_normal after the lookahead is filled. */
module Parser {
  import opened Arith
  import opened Bits
  import opened Format
  import opened Encoding
  import opened TokenCounts
  import opened TokenBuffer
  import opened Window
  import opened BlockFlush

  /** Copying back over a repeating stretch of the stream reproduces it, for a reader that knows it from lo. */
  lemma {:induction false} CopyRepeats(stream: Bytes, lo: nat, q: nat, dist: nat, len: nat)
    requires q + len <= |stream| && 1 <= dist && lo + dist <= q && Repeats(stream, q, dist, len)
    ensures CopyBack(stream[lo..q], dist, len) == stream[lo..q + len]
    decreases len
  {
    if len > 0 {
      assert stream[lo..q] + [stream[lo..q][q - lo - dist]] == stream[lo..q + 1];
      CopyRepeats(stream, lo, q + 1, dist, len - 1);
    }
  }

  /** Appending a token that replays the next bytes of the stream. */
  lemma CoverToken(stream: Bytes, lo: nat, coded: nat, ts: seq<Token>, t: Token)
    requires Covers(stream, lo, coded, ts)
    requires var q := coded + TokensLength(ts);
             && lo <= q && q + TokenLength(t) <= |stream| && Fits(q - lo, t)
             && Apply(stream[lo..q], t) == stream[lo..q + TokenLength(t)]
    ensures Covers(stream, lo, coded, ts + [t])
    ensures TokensLength(ts + [t]) == TokensLength(ts) + TokenLength(t)
  {
    hide Apply, CopyBack;
    assert (ts + [t])[..|ts|] == ts;
  }

  lemma CoverLiteral(stream: Bytes, lo: nat, coded: nat, ts: seq<Token>, b: byte)
    requires Covers(stream, lo, coded, ts)
    requires coded + TokensLength(ts) < |stream| && b == stream[coded + TokensLength(ts)]
    ensures Covers(stream, lo, coded, ts + [Literal(b)])
    ensures TokensLength(ts + [Literal(b)]) == TokensLength(ts) + 1
  {
    hide Covers, TokensLength;
    CoversLength(stream, lo, coded, ts);
    var q := coded + TokensLength(ts);
    assert stream[lo..q] + [b] == stream[lo..q + 1];
    CoverToken(stream, lo, coded, ts, Literal(b));
  }

  lemma CoverMatch(stream: Bytes, lo: nat, coded: nat, ts: seq<Token>, len: nat, dist: nat)
    requires Covers(stream, lo, coded, ts)
    requires var q := coded + TokensLength(ts);
             1 <= dist && lo + dist <= q && q + len <= |stream| && Repeats(stream, q, dist, len)
    ensures Covers(stream, lo, coded, ts + [Match(len, dist)])
    ensures TokensLength(ts + [Match(len, dist)]) == TokensLength(ts) + len
  {
    hide Covers, TokensLength, CopyBack;
    CopyRepeats(stream, lo, coded + TokensLength(ts), dist, len);
    CoverToken(stream, lo, coded, ts, Match(len, dist));
  }

  /** More stream does not disturb what is covered. */
  lemma CoversMore(stream: Bytes, more: Bytes, lo: nat, coded: nat, ts: seq<Token>)
    requires Covers(stream, lo, coded, ts)
    ensures Covers(stream + more, lo, coded, ts)
  {
    hide AllFit, Replay, TokensLength;
    assert (stream + more)[lo..coded] == stream[lo..coded];
    assert (stream + more)[lo..coded + TokensLength(ts)] == stream[lo..coded + TokensLength(ts)];
  }

  /** Compression settings, from the flags of tdefl_init. */
  datatype Flags = Flags(probes: nat, zlib: bool, adler: bool, greedy: bool, rle: bool, filter: bool,
                         forceStatic: bool, forceRaw: bool, nondeterministic: bool)

  class LzParser {
    const flags: Flags
    const win: Dictionary
    const tb: Tokens
    var savedDist: nat
    var savedLen: nat
    var savedLit: nat
    /** How much of the stream earlier blocks hold. */
    ghost var coded: nat

    constructor (f: Flags, win: Dictionary, tb: Tokens)
      requires win.Valid() && tb.Valid() && win.stream == [] && win.mark == 0 && tb.tokens == []
      requires Apart(win, tb)
      ensures Valid() && this.flags == f && this.win == win && this.tb == tb && coded == 0 && savedLen == 0
    {
      hide HoldsWindow, Linked, Stored, AllFlagged, Tallied, Repeats, Pos;
      flags, this.win, this.tb := f, win, tb;
      savedDist, savedLen, savedLit, coded := 0, 0, 0, 0;
      new;
      NothingCovered(win.stream, 0, tb.tokens);
    }

    static ghost predicate Apart(win: Dictionary, tb: Tokens) {
      win.dict != tb.buf
    }

    /** A deferred match is a real one for the byte before the lookahead. */
    ghost predicate DeferOk()
      reads this, win
      requires win.lookaheadSize <= |win.stream|
    {
      savedLen > 0 ==>
        && 3 <= savedLen < 128 && 1 <= savedDist <= DICT_SIZE && win.mark + savedDist < win.Pos()
        && savedLen - 1 <= win.lookaheadSize
        && savedLit == win.stream[win.Pos() - 1] as nat
        && Repeats(win.stream, win.Pos() - 1, savedDist, savedLen)
    }

    /** The tokens account for the stream up to the lookahead, less one byte while a match is deferred. */
    ghost predicate Valid()
      reads this, win, win.dict, win.next, win.hash, tb, tb.buf, tb.lit.counts, tb.dist.counts
    {
      && win.Valid() && tb.Valid() && Apart(win, tb)
      && coded + tb.totalBytes + (if savedLen > 0 then 1 else 0) == win.Pos()
      && Covers(win.stream, win.mark, coded, tb.tokens)
      && DeferOk()
    }

    /** The length that a match has to exceed: a deferred match's, or one less than the shortest. */
    ghost function ToBeat(): (n: nat)
      reads this
    {
      if savedLen > 0 then savedLen else MIN_MATCH - 1
    }

    /** n is the whole run of lookahead bytes that repeat the byte before them. */
    ghost predicate WholeRun(n: nat)
      reads win
      requires win.lookaheadSize <= |win.stream|
    {
      && n <= win.lookaheadSize && win.Pos() > 0 && Repeats(win.stream, win.Pos(), 1, n)
      && (n < win.lookaheadSize ==> win.stream[win.Pos() + n] != win.stream[win.Pos() - 1])
    }

    /** What is found at this position by a search for runs, or along the chains; nothing when blocks are to be raw. */
    ghost predicate Finds(dist: nat, len: nat)
      reads this, win, win.next
      requires win.lookaheadSize <= |win.stream| && win.next.Length == DICT_SIZE
    {
      if flags.forceRaw || (flags.rle && win.dictSize == 0) then dist == 0 && len == ToBeat()
      else if flags.rle then
        || (dist == 1 && len >= MIN_MATCH && WholeRun(len))
        || (dist == 0 && len == 0 && exists n: nat :: n < MIN_MATCH && WholeRun(n))
      else
        && ((dist == 0 && len == ToBeat()) || (len > ToBeat() && win.Sound(dist, len)))
        && win.NoneLonger((if ToBeat() >= 32 then flags.probes / 4 + 2 else flags.probes + 2) / 3, len)
    }

    /** Matches that would cost more than they save are passed over, as is one from the ring's first slot. */
    ghost predicate PassedOver(dist: nat, len: nat)
      reads this, win
      requires win.lookaheadSize <= |win.stream|
    {
      (len == MIN_MATCH && dist >= 8192) || win.Pos() % DICT_SIZE == dist || (flags.filter && len <= 5)
    }

    /** What the search settles on at this position: a distance of zero means none. */
    method Search() returns (dist: nat, len: nat, ghost dist0: nat, ghost len0: nat)
      requires Valid() && win.lookaheadSize > 0
      ensures dist > 0 ==> win.Sound(dist, len) && len >= 3
      ensures dist == 0 ==> len <= if savedLen > 0 then savedLen else 2
      ensures Finds(dist0, len0) && (dist, len) == if PassedOver(dist0, len0) then (0, 0) else (dist0, len0)
    {
      hide HoldsWindow, Linked, Stored, AllFlagged, Tallied, Covers, Repeats, Pos,
           Dictionary.NoneLonger;
      dist := 0;
      len := if savedLen > 0 then savedLen else MIN_MATCH - 1;
      if flags.rle || flags.forceRaw {
        if win.dictSize > 0 && !flags.forceRaw {
          len := RunLength();
          if len < MIN_MATCH {
            assert WholeRun(len);
            len := 0;
          } else {
            dist := 1;
          }
        }
      } else {
        var probes := if len >= 32 then 1 + (flags.probes / 4 + 2) / 3 else 1 + (flags.probes + 2) / 3;
        dist, len := win.FindMatch(probes, dist, len);
      }
      dist0, len0 := dist, len;
      var curPos := win.lookaheadPos % DICT_SIZE;
      WrapMod(win.Pos(), DICT_SIZE, 131072);
      if (len == MIN_MATCH && dist >= 8 * 1024) || curPos == dist || (flags.filter && len <= 5) {
        dist, len := 0, 0;
      }
    }

    /** The ring shows the lookahead, and the byte before it. */
    lemma RingAhead(n: nat)
      requires win.Valid() && n < win.lookaheadSize
      ensures win.lookaheadPos % DICT_SIZE + n < win.dict.Length
      ensures win.dict[win.lookaheadPos % DICT_SIZE + n] == win.stream[win.Pos() + n]
    {
      hide HoldsWindow, Linked, Dictionary.Chained;
      WrapMod(win.Pos(), DICT_SIZE, 131072);
      RingRead(win.dict[..], win.stream, win.Pos(), n);
    }

    lemma RingBehind()
      requires win.Valid() && win.dictSize > 0
      ensures win.Pos() > 0
      ensures win.dict[(win.lookaheadPos % DICT_SIZE - 1) % DICT_SIZE] == win.stream[win.Pos() - 1]
    {
      hide HoldsWindow, Linked, Dictionary.Chained;
      WrapMod(win.Pos(), DICT_SIZE, 131072);
      RingRead(win.dict[..], win.stream, win.Pos() - 1, 0);
    }

    /** How many lookahead bytes repeat the byte before them. */
    method RunLength() returns (n: nat)
      requires win.Valid() && win.dictSize > 0
      ensures WholeRun(n)
    {
      hide HoldsWindow, Linked, Dictionary.Chained;
      var curPos := win.lookaheadPos % DICT_SIZE;
      RingBehind();
      var c := win.dict[(curPos - 1) % DICT_SIZE];
      n := 0;
      while n < win.lookaheadSize
        invariant n <= win.lookaheadSize && Repeats(win.stream, win.Pos(), 1, n)
        invariant n > 0 ==> win.stream[win.Pos() + n - 1] == c
      {
        RingAhead(n);
        if win.dict[curPos + n] != c {
          break;
        }
        n := n + 1;
      }
    }

    /** Records the match and makes the tokens account for it. */
    method TakeMatch(len: nat, dist: nat)
      requires win.Valid() && tb.Valid() && Apart(win, tb) && tb.codePos + 4 <= CODE_BUF_SIZE
      requires Covers(win.stream, win.mark, coded, tb.tokens)
      requires 3 <= len <= 258 && 1 <= dist <= DICT_SIZE
      requires win.mark + dist <= coded + tb.totalBytes && coded + tb.totalBytes + len <= |win.stream|
      requires Repeats(win.stream, coded + tb.totalBytes, dist, len)
      modifies tb, tb.buf, tb.lit.counts, tb.dist.counts
      ensures win.Valid() && tb.Valid() && tb.codePos <= old(tb.codePos) + 4
      ensures Covers(win.stream, win.mark, coded, tb.tokens) && tb.totalBytes == old(tb.totalBytes) + len
      ensures tb.tokens == old(tb.tokens) + [Match(len, dist)]
    {
      hide HoldsWindow, Linked, Stored, AllFlagged, Tallied, Covers, Repeats, Pos, FlagPos, TokensLength;
      CoverMatch(win.stream, win.mark, coded, tb.tokens, len, dist);
      tb.RecordMatch(len, dist);
    }

    method TakeLiteral(b: byte)
      requires win.Valid() && tb.Valid() && Apart(win, tb) && tb.codePos + 2 <= CODE_BUF_SIZE
      requires Covers(win.stream, win.mark, coded, tb.tokens)
      requires var q := coded + tb.totalBytes; q < |win.stream| && b == win.stream[q]
      modifies tb, tb.buf, tb.lit.counts
      ensures win.Valid() && tb.Valid() && tb.codePos <= old(tb.codePos) + 2
      ensures Covers(win.stream, win.mark, coded, tb.tokens) && tb.totalBytes == old(tb.totalBytes) + 1
      ensures tb.tokens == old(tb.tokens) + [Literal(b)]
    {
      hide HoldsWindow, Linked, Stored, AllFlagged, Tallied, Covers, Repeats, Pos, FlagPos, TokensLength;
      CoverLiteral(win.stream, win.mark, coded, tb.tokens, b);
      tb.RecordLiteral(b);
    }

    /** Remembers a match and its first byte in case the next position has a better one. */
    method Defer(len: nat, dist: nat)
      requires win.Valid() && win.Sound(dist, len) && len >= 3
      modifies this`savedDist, this`savedLen, this`savedLit
      ensures savedLen == len && savedDist == dist && savedLit == win.stream[win.Pos()] as nat
    {
      hide HoldsWindow, Linked, Repeats;
      var curPos := win.lookaheadPos % DICT_SIZE;
      RingAhead(0);
      savedLit := win.dict[curPos];
      savedDist, savedLen := dist, len;
    }

    /** What was recorded, and what is deferred now, after a search that settled on len and dist. */
    twostate predicate Decided(len: nat, dist: nat, b: byte)
      requires old(savedLen > 0 ==> savedLit < 256)
      reads this, tb
    {
      var ts := old(tb.tokens);
      if old(savedLen) > 0 && len > old(savedLen) then
        if len >= 128 then tb.tokens == ts + [Literal(old(savedLit)), Match(len, dist)] && savedLen == 0
        else tb.tokens == ts + [Literal(old(savedLit))] && savedLen == len && savedDist == dist
      else if old(savedLen) > 0 then tb.tokens == ts + [Match(old(savedLen), old(savedDist))] && savedLen == 0
      else if dist == 0 then tb.tokens == ts + [Literal(b)] && savedLen == 0
      else if flags.greedy || flags.rle || len >= 128 then tb.tokens == ts + [Match(len, dist)] && savedLen == 0
      else tb.tokens == ts && savedLen == len && savedDist == dist
    }

    /** The parsing state machine: records tokens, defers, and returns how far the lookahead moves. */
    method Decide(len: nat, dist: nat) returns (move: nat)
      requires Valid() && win.lookaheadSize > 0 && tb.codePos + 6 <= CODE_BUF_SIZE
      requires dist > 0 ==> win.Sound(dist, len) && len >= 3
      requires dist == 0 ==> len <= if savedLen > 0 then savedLen else 2
      modifies this`savedDist, this`savedLen, this`savedLit, tb, tb.buf, tb.lit.counts, tb.dist.counts
      ensures win.Valid() && tb.Valid() && tb.codePos <= old(tb.codePos) + 6
      ensures 1 <= move <= win.lookaheadSize
      ensures Covers(win.stream, win.mark, coded, tb.tokens)
      ensures coded + tb.totalBytes + (if savedLen > 0 then 1 else 0) == win.Pos() + move
      ensures savedLen > 0 ==> move == 1 && 3 <= savedLen < 128 && win.Sound(savedDist, savedLen)
                               && savedLit == win.stream[win.Pos()] as nat
      ensures Decided(len, dist, win.stream[win.Pos()])
    {
      hide HoldsWindow, Linked, Stored, AllFlagged, Tallied, Covers, Repeats, Pos, FlagPos, TokensLength;
      move := 1;
      if savedLen > 0 {
        if len > savedLen {
          TakeLiteral(savedLit);
          if len >= 128 {
            TakeMatch(len, dist);
            savedLen := 0;
            move := len;
          } else {
            Defer(len, dist);
          }
        } else {
          TakeMatch(savedLen, savedDist);
          move := savedLen - 1;
          savedLen := 0;
        }
      } else if dist == 0 {
        var curPos := win.lookaheadPos % DICT_SIZE;
        RingAhead(0);
        TakeLiteral(win.dict[curPos]);
      } else if flags.greedy || flags.rle || len >= 128 {
        TakeMatch(len, dist);
        move := len;
      } else {
        Defer(len, dist);
      }
    }

    /** One step: search, decide, move the lookahead. */
    method Step() returns (ghost dist0: nat, ghost len0: nat)
      requires Valid() && win.lookaheadSize > 0 && tb.codePos + 6 <= CODE_BUF_SIZE
      modifies this`savedDist, this`savedLen, this`savedLit, tb, tb.buf, tb.lit.counts, tb.dist.counts
      modifies win`lookaheadPos, win`lookaheadSize, win`dictSize
      ensures Valid() && tb.codePos <= old(tb.codePos) + 6
      ensures win.lookaheadSize < old(win.lookaheadSize)
      ensures old(Finds(dist0, len0))
      ensures if old(PassedOver(dist0, len0)) then Decided(0, 0, win.stream[old(win.Pos())])
              else Decided(len0, dist0, win.stream[old(win.Pos())])
      ensures win.dictSize == Min(old(win.dictSize + win.lookaheadSize) - win.lookaheadSize, DICT_SIZE)
    {
      hide HoldsWindow, Linked, Stored, AllFlagged, Tallied, Covers, Repeats, Pos, FlagPos, TokensLength;
      var dist, len;
      dist, len, dist0, len0 := Search();
      var move := Decide(len, dist);
      win.Advance(move);
    }

    /** Tops up the lookahead; the state machine's invariant does not notice. */
    method Refill(src: Bytes, from: nat) returns (to: nat)
      requires Valid() && from <= |src|
      modifies win`lookaheadSize, win`dictSize, win`stream, win.dict, win.next, win.hash
      ensures Valid() && to == from + Min(|src| - from, MAX_MATCH - old(win.lookaheadSize))
      ensures win.stream == old(win.stream) + src[from..to] && win.lookaheadSize == old(win.lookaheadSize) + (to - from)
      ensures win.dictSize == Min(DICT_SIZE - win.lookaheadSize, old(win.dictSize))
    {
      hide HoldsWindow, Linked, Stored, AllFlagged, Tallied, Covers, Pos, FlagPos, TokensLength;
      CoversMore(win.stream, src[from..from + Min(|src| - from, MAX_MATCH - win.lookaheadSize)], win.mark, coded,
          tb.tokens);
      to := win.Fill(src, from);
    }

    lemma Placed()
      requires Valid()
      ensures win.lookaheadSize <= |win.stream| && coded + tb.totalBytes <= win.Pos() <= |win.stream|
      ensures tb.tokens == [] ==> tb.codePos == 1
    {
      hide HoldsWindow, Linked, Stored, AllFlagged, Tallied, Covers, Repeats, FlagPos, TokensLength;
    }

    /** With every byte coded, the history can be forgotten. */
    method ForgetHistory()
      requires Valid() && tb.tokens == [] && win.lookaheadSize == 0
      modifies win`dictSize, win`mark, win`clear, win.next, win.hash
      ensures Valid() && coded == win.Pos() == win.mark == |win.stream| && win.dictSize == 0 && win.clear
    {
      hide HoldsWindow, Linked, Stored, AllFlagged, Tallied, Covers, Repeats, Pos, FlagPos;
      NothingDeferred();
      win.Forget();
      NothingCovered(win.stream, coded, tb.tokens);
    }

    /** Nothing is deferred once the lookahead is empty: the tokens then account for the whole stream. */
    lemma NothingDeferred()
      requires win.Valid() && DeferOk() && win.lookaheadSize == 0
      ensures savedLen == 0
      ensures coded + tb.totalBytes + (if savedLen > 0 then 1 else 0) == win.Pos() ==>
          coded + tb.totalBytes == |win.stream|
    {
    }
  }

  lemma NothingCovered(stream: Bytes, coded: nat, ts: seq<Token>)
    requires ts == [] && coded <= |stream|
    ensures Covers(stream, coded, coded, ts) && TokensLength(ts) == 0
  {
  }
}
