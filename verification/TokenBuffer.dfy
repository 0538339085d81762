/** The compressor's packed token buffer: flag bytes, literals and matches (tdefl_record_literal,
    tdefl_record_match). */
module TokenBuffer {
  import opened Arith
  import opened Bits
  import opened Format
  import opened Encoding
  import opened HuffTable
  import opened TokenCounts

  const CODE_BUF_SIZE := 65536

  /** Bit j of a byte. */
  function BitAt(b: byte, j: nat): nat {
    b / Pow2(j) % 2
  }

  function ByteLen(t: Token): nat {
    if t.Literal? then 1 else 3
  }

  function FlagOf(t: Token): nat {
    if t.Literal? then 0 else 1
  }

  /** Where token i starts: a flag byte precedes every group of eight. */
  function Pos(ts: seq<Token>, i: nat): (p: nat)
    requires i <= |ts|
    ensures p >= 1
  {
    if i == 0 then 1 else Pos(ts, i - 1) + ByteLen(ts[i - 1]) + (if i % 8 == 0 then 1 else 0)
  }

  /** Where the flag byte of token i's group stands. */
  function FlagPos(ts: seq<Token>, i: nat): nat
    requires i <= |ts|
  {
    Pos(ts, i / 8 * 8) - 1
  }

  /** A little-endian 16-bit value. */
  function Word(lo: nat, hi: nat): nat {
    lo + 256 * hi
  }

  predicate TokenAt(buf: seq<byte>, p: nat, t: Token) {
    && p + ByteLen(t) <= |buf|
    && match t
       case Literal(b) => buf[p] == b
       case Match(len, dist) => Legal(t) && buf[p] == len - 3 && Word(buf[p + 1], buf[p + 2]) == dist - 1
  }

  /** Every token's bytes are in place. */
  ghost predicate Stored(buf: seq<byte>, ts: seq<Token>) {
    forall i :: 0 <= i < |ts| ==> TokenAt(buf, Pos(ts, i), ts[i])
  }

  /** Token i's flag is bit i % 8 of its group's flag byte; in the last, unfinished group it is shifted up. */
  ghost predicate Flagged(buf: seq<byte>, ts: seq<Token>, i: nat, shift: nat)
    requires i < |ts|
  {
    && FlagPos(ts, i) < |buf|
    && BitAt(buf[FlagPos(ts, i)], i % 8 + (if i / 8 == |ts| / 8 then shift else 0)) == FlagOf(ts[i])
  }

  ghost predicate AllFlagged(buf: seq<byte>, ts: seq<Token>, shift: nat) {
    forall i :: 0 <= i < |ts| ==> Flagged(buf, ts, i, shift)
  }

  lemma {:induction false} PosPrefix(ts: seq<Token>, t: Token, i: nat)
    requires i <= |ts|
    ensures Pos(ts + [t], i) == Pos(ts, i)
  {
    if i > 0 {
      PosPrefix(ts, t, i - 1);
    }
  }

  lemma {:induction false} PosGap(ts: seq<Token>, i: nat, j: nat)
    requires i < j <= |ts|
    ensures Pos(ts, i) + ByteLen(ts[i]) <= Pos(ts, j) - (if j % 8 == 0 then 1 else 0)
    decreases j
  {
    if i < j - 1 {
      PosGap(ts, i, j - 1);
    }
  }

  /** Each token costs at least nine eighths of a byte. */
  lemma {:induction false} PosAtLeast(ts: seq<Token>, i: nat)
    requires i <= |ts|
    ensures Pos(ts, i) >= 1 + i + i / 8
  {
    if i > 0 {
      PosAtLeast(ts, i - 1);
    }
  }

  /** Flag bytes and token bytes do not overlap. */
  lemma FlagApart(ts: seq<Token>, g: nat, i: nat)
    requires g * 8 <= |ts| && i < |ts|
    ensures Pos(ts, g * 8) - 1 < Pos(ts, i) || Pos(ts, g * 8) - 1 >= Pos(ts, i) + ByteLen(ts[i])
  {
    if i < g * 8 {
      PosGap(ts, i, g * 8);
    } else if g * 8 < i {
      PosGap(ts, g * 8, i);
    }
  }

  /** Shifting a flag in from the top moves the others down one place. */
  lemma ShiftIn(b: byte, f: nat)
    requires f <= 1
    ensures var c := b / 2 + 128 * f;
            c < 256 && BitAt(c, 7) == f && forall j :: 0 <= j < 7 ==> BitAt(c, j) == BitAt(b, j + 1)
  {
    Pow2Table();
    var c: byte := b / 2 + 128 * f;
    forall j | 0 <= j < 7
      ensures BitAt(c, j) == BitAt(b, j + 1)
    {
      ShiftBit(b, f, j);
    }
  }

  lemma ShiftBit(b: byte, f: nat, j: nat)
    requires f <= 1 && j < 7
    ensures b / 2 + 128 * f < 256
    ensures BitAt(b / 2 + 128 * f, j) == BitAt(b, j + 1)
  {
    Pow2Table();
    DivPow2Add(b, 1, j);
    Pow2Add(7 - j, j);
    var p, q := Pow2(j), Pow2(6 - j);
    assert Pow2(7 - j) == 2 * q;
    assert 128 * f == 2 * (q * f) * p by {
      assert 2 * q * p == 128;
      assert 2 * (q * f) * p == 2 * q * p * f;
    }
    ModAddMul(b / 2, 2 * (q * f), p);
  }

  lemma ShiftDown(b: byte, n: nat, j: nat)
    requires n <= 8
    ensures 0 <= b / Pow2(n) < 256 && BitAt(b / Pow2(n), j) == BitAt(b, n + j)
  {
    DivPow2Add(b, n, j);
    DivNonNeg(b, Pow2(n));
  }

  /** Recording a token: its bytes go to the end, its flag into the current flag byte. */
  lemma StoreOne(buf: seq<byte>, ts: seq<Token>, t: Token, buf': seq<byte>)
    requires |buf| == |buf'| && Stored(buf, ts) && Pos(ts, |ts|) + ByteLen(t) <= |buf|
    requires TokenAt(buf', Pos(ts, |ts|), t)
    requires forall p :: 0 <= p < Pos(ts, |ts|) && p != FlagPos(ts, |ts|) ==> buf'[p] == buf[p]
    ensures Stored(buf', ts + [t])
  {
    hide Pos, Legal;
    var ts' := ts + [t];
    forall i | 0 <= i < |ts'|
      ensures TokenAt(buf', Pos(ts', i), ts'[i])
    {
      PosPrefix(ts, t, i);
      if i < |ts| {
        PosGap(ts, i, |ts|);
        FlagApart(ts, |ts| / 8, i);
        assert TokenAt(buf, Pos(ts, i), ts[i]);
      }
    }
  }

  lemma FlagOne(buf: seq<byte>, ts: seq<Token>, t: Token, buf': seq<byte>)
    requires |buf| == |buf'| && AllFlagged(buf, ts, 8 - |ts| % 8) && Pos(ts, |ts|) <= |buf|
    requires FlagPos(ts, |ts|) < |buf| && buf'[FlagPos(ts, |ts|)] == buf[FlagPos(ts, |ts|)] / 2 + 128 * FlagOf(t)
    requires forall p :: 0 <= p < Pos(ts, |ts|) && p != FlagPos(ts, |ts|) ==> buf'[p] == buf[p]
    ensures AllFlagged(buf', ts + [t], if |ts + [t]| % 8 == 0 then 8 else 8 - |ts + [t]| % 8)
  {
    hide Pos, BitAt;
    var ts' := ts + [t];
    ShiftIn(buf[FlagPos(ts, |ts|)], FlagOf(t));
    var shift' := if |ts'| % 8 == 0 then 8 else 8 - |ts'| % 8;
    forall i | 0 <= i < |ts'|
      ensures Flagged(buf', ts', i, shift')
    {
      PosPrefix(ts, t, i / 8 * 8);
      if i < |ts| {
        assert Flagged(buf, ts, i, 8 - |ts| % 8);
        if i / 8 != |ts| / 8 {
          PosGap(ts, i / 8 * 8, |ts| / 8 * 8);
          PosMono(ts, |ts| / 8 * 8, |ts|);
        }
      }
    }
  }

  lemma {:induction false} PosMono(ts: seq<Token>, i: nat, j: nat)
    requires i <= j <= |ts|
    ensures Pos(ts, i) <= Pos(ts, j)
    decreases j
  {
    if i < j {
      PosMono(ts, i, j - 1);
    }
  }

  lemma TokensLengthStep(ts: seq<Token>, t: Token)
    ensures TokensLength(ts + [t]) == TokensLength(ts) + TokenLength(t)
  {
    assert (ts + [t])[..|ts|] == ts;
  }

  class Tokens {
    const buf: array<byte>
    const lit: Table
    const dist: Table
    var codePos: nat
    var flagsPos: nat
    var flagsLeft: nat
    var totalBytes: nat
    /** The tokens recorded since the last block. */
    ghost var tokens: seq<Token>

    ghost function Parts(): set<object> {
      {this, buf} + lit.Parts() + dist.Parts()
    }

    ghost predicate Shape() {
      && buf.Length == CODE_BUF_SIZE && lit.Valid() && dist.Valid()
      && lit.counts.Length == 288 && dist.counts.Length == 32
      && lit.counts != dist.counts && lit.Parts() !! dist.Parts()
    }

    /** The buffer holds the recorded tokens, their flags and their counts. */
    ghost predicate Valid()
      reads this, buf, lit.counts, dist.counts
    {
      && Shape()
      && codePos == Pos(tokens, |tokens|) <= buf.Length
      && flagsPos == FlagPos(tokens, |tokens|)
      && flagsLeft == 8 - |tokens| % 8
      && totalBytes == TokensLength(tokens)
      && Stored(buf[..], tokens)
      && AllFlagged(buf[..], tokens, flagsLeft)
      && Tallied(tokens, lit.counts[..], dist.counts[..])
    }

    constructor ()
      ensures Valid() && tokens == []
      ensures fresh(Parts())
    {
      hide Pos;
      var l := new Table(288);
      var d := new Table(32);
      buf := new byte[CODE_BUF_SIZE](_ => 0);
      lit, dist := l, d;
      codePos, flagsPos, flagsLeft, totalBytes := 1, 0, 8, 0;
      tokens := [];
      new;
      PosStart(tokens);
      TallyNone();
      assert lit.counts[..] == Rep(0, 288) && dist.counts[..] == Rep(0, 32);
    }

    /** tdefl_record_literal. */
    method RecordLiteral(b: byte)
      requires Valid() && codePos + 2 <= buf.Length
      modifies this, buf, lit.counts
      ensures Valid() && tokens == old(tokens) + [Literal(b)] && codePos <= old(codePos) + 2
    {
      hide Pos, Stored, AllFlagged, Tallied, FlagPos, TokensLength;
      ghost var ts, before, t := tokens, buf[..], Literal(b);
      totalBytes := totalBytes + 1;
      FlagPosBefore(ts);
      buf[codePos] := b;
      codePos := codePos + 1;
      buf[flagsPos] := buf[flagsPos] / 2;
      PosStep(ts, t);
      StoreOne(before, ts, t, buf[..]);
      FlagOne(before, ts, t, buf[..]);
      flagsLeft := flagsLeft - 1;
      if flagsLeft == 0 {
        flagsLeft := 8;
        flagsPos := codePos;
        codePos := codePos + 1;
      }
      TallyToken(ts, lit.counts[..], dist.counts[..], t);
      lit.counts[b] := lit.counts[b] + 1;
      TokensLengthStep(ts, t);
      tokens := tokens + [t];
    }

    /** tdefl_record_match. */
    method RecordMatch(matchLen: nat, matchDist: nat)
      requires Valid() && codePos + 4 <= buf.Length
      requires 3 <= matchLen <= 258 && 1 <= matchDist <= 32768
      modifies this, buf, lit.counts, dist.counts
      ensures Valid() && tokens == old(tokens) + [Match(matchLen, matchDist)] && codePos <= old(codePos) + 4
    {
      hide Pos, Stored, AllFlagged, Tallied, FlagPos, TokensLength, LenSym, DistSym;
      ghost var ts, before, t := tokens, buf[..], Match(matchLen, matchDist);
      totalBytes := totalBytes + matchLen;
      FlagPosBefore(ts);
      buf[codePos] := matchLen - 3;
      var d := matchDist - 1;
      buf[codePos + 1] := d % 256;
      buf[codePos + 2] := d / 256;
      codePos := codePos + 3;
      buf[flagsPos] := buf[flagsPos] / 2 + 128;
      PosStep(ts, t);
      StoreOne(before, ts, t, buf[..]);
      FlagOne(before, ts, t, buf[..]);
      flagsLeft := flagsLeft - 1;
      if flagsLeft == 0 {
        flagsLeft := 8;
        flagsPos := codePos;
        codePos := codePos + 1;
      }
      CountMatch(matchLen, matchDist, ts);
      TokensLengthStep(ts, t);
      tokens := tokens + [t];
    }

    /** The histogram updates that end tdefl_record_match. */
    method CountMatch(matchLen: nat, matchDist: nat, ghost ts: seq<Token>)
      requires Shape() && Legal(Match(matchLen, matchDist)) && Tallied(ts, lit.counts[..], dist.counts[..])
      modifies lit.counts, dist.counts
      ensures Tallied(ts + [Match(matchLen, matchDist)], lit.counts[..], dist.counts[..])
    {
      hide Tallied, LenSym, DistSym;
      ghost var t := Match(matchLen, matchDist);
      TallyToken(ts, lit.counts[..], dist.counts[..], t);
      var e, s := DistSym(matchDist - 1), LenSym(matchLen - 3);
      assert e == DistSymOf(t) && s == LitSymOf(t);
      dist.counts[e] := dist.counts[e] + 1;
      lit.counts[s] := lit.counts[s] + 1;
    }

    /** Ready to be read back: the last flag byte shifted into place, an unused one dropped. */
    ghost predicate Packed()
      reads this, buf
    {
      && Shape()
      && codePos == EndPos(tokens) <= buf.Length
      && totalBytes == TokensLength(tokens)
      && Stored(buf[..], tokens)
      && AllFlagged(buf[..], tokens, 0)
    }

    /** The fix-up at the start of tdefl_flush_block. */
    method Finish()
      requires Valid()
      modifies this, buf
      ensures Packed() && tokens == old(tokens) && totalBytes == old(totalBytes)
    {
      hide Pos, Stored, AllFlagged, Tallied, FlagPos, TokensLength;
      FlagPosBefore(tokens);
      ghost var before := buf[..];
      ShiftDown(buf[flagsPos], flagsLeft, 0);
      buf[flagsPos] := buf[flagsPos] / Pow2(flagsLeft);
      FinishFlags(before, tokens, buf[..]);
      codePos := codePos - (if flagsLeft == 8 then 1 else 0);
    }

    /** Empties the buffer after a block; the first flag byte keeps its stale contents. */
    method Reset()
      requires Shape()
      modifies this, lit.counts, dist.counts
      ensures Valid() && tokens == []
    {
      hide Pos;
      ClearCounts(lit.counts);
      ClearCounts(dist.counts);
      codePos, flagsPos, flagsLeft, totalBytes := 1, 0, 8, 0;
      tokens := [];
      PosStart(tokens);
      TallyNone();
      assert lit.counts[..] == Rep(0, 288) && dist.counts[..] == Rep(0, 32);
    }

    /** Reads token i: a new flag byte with its sentinel bit when the register has run out, then the token's bytes. */
    method ReadToken(pos: nat, flags: nat, ghost i: nat)
      returns (t: Token, pos': nat, flags': nat)
      requires Packed() && i < |tokens| && Reading(buf[..], tokens, pos, flags, i)
      ensures t == tokens[i] && Reading(buf[..], tokens, pos', flags', i + 1)
    {
      hide Pos, FlagPos, Register, Reading, AllFlagged, Stored, Legal, TokensLength;
      ReadingToken(buf[..], tokens, pos, flags, i);
      pos', flags' := pos, flags;
      if flags' == 1 {
        var f: nat := buf[pos'];
        flags' := f + 256;
        pos' := pos' + 1;
      }
      assert pos' == Pos(tokens, i) && flags' == Register(buf[FlagPos(tokens, i)], i % 8);
      if flags' % 2 == 1 {
        var m: nat, d := buf[pos'], Word(buf[pos' + 1], buf[pos' + 2]);
        t := Match(m + 3, d + 1);
        pos' := pos' + 3;
      } else {
        t := Literal(buf[pos']);
        pos' := pos' + 1;
      }
      flags' := flags' / 2;
      ReadingNext(buf[..], tokens, i);
    }
  }

  /** The flag register after j flags of a group: the sentinel bit still above those left. */
  function Register(b: byte, j: nat): nat {
    DivNonNeg(b + 256, Pow2(j));
    (b + 256) / Pow2(j)
  }

  /** The reader stands before token i; at a group boundary its register has run out. */
  ghost predicate Reading(buf: seq<byte>, ts: seq<Token>, pos: nat, flags: nat, i: nat) {
    && i <= |ts| && EndPos(ts) <= |buf|
    && if i % 8 == 0 then flags == 1 && pos == Pos(ts, i) - 1
       else pos == Pos(ts, i) && FlagPos(ts, i) < |buf| && flags == Register(buf[FlagPos(ts, i)], i % 8)
  }

  lemma ReadingToken(buf: seq<byte>, ts: seq<Token>, pos: nat, flags: nat, i: nat)
    requires i < |ts| && Reading(buf, ts, pos, flags, i) && Stored(buf, ts) && AllFlagged(buf, ts, 0)
    ensures FlagPos(ts, i) < |buf|
    ensures flags == 1 ==> pos == FlagPos(ts, i) && pos + 1 == Pos(ts, i)
    ensures flags == 1 ==> Register(buf[pos], i % 8) == buf[pos] as nat + 256
    ensures flags != 1 ==> pos == Pos(ts, i) && flags == Register(buf[FlagPos(ts, i)], i % 8)
    ensures Register(buf[FlagPos(ts, i)], i % 8) % 2 == FlagOf(ts[i])
    ensures TokenAt(buf, Pos(ts, i), ts[i])
  {
    hide Pos;
    FlagFits(ts, i);
    assert Flagged(buf, ts, i, 0);
    var b := buf[FlagPos(ts, i)];
    SentinelBit(b, i % 8);
    if i % 8 == 0 {
      assert i / 8 * 8 == i;
    } else {
      SentinelNotDone(b, i % 8);
    }
  }

  lemma NextMod8(i: nat)
    ensures (i + 1) % 8 == if i % 8 == 7 then 0 else i % 8 + 1
  {
  }

  lemma ReadingNext(buf: seq<byte>, ts: seq<Token>, i: nat)
    requires i < |ts| && EndPos(ts) <= |buf| && FlagPos(ts, i) < |buf|
    ensures Reading(buf, ts, Pos(ts, i) + ByteLen(ts[i]), Register(buf[FlagPos(ts, i)], i % 8) / 2, i + 1)
  {
    hide Pos, FlagPos, Register, ByteLen, EndPos;
    NextToken(ts, i);
    NextMod8(i);
    SentinelShift(buf[FlagPos(ts, i)], i % 8);
  }

  method ClearCounts(counts: array<nat>)
    modifies counts
    ensures forall i :: 0 <= i < counts.Length ==> counts[i] == 0
  {
    for i := 0 to counts.Length
      invariant forall k :: 0 <= k < i ==> counts[k] == 0
    {
      counts[i] := 0;
    }
  }

  /** Where the packed tokens end. */
  function EndPos(ts: seq<Token>): nat {
    Pos(ts, |ts|) - (if |ts| % 8 == 0 then 1 else 0)
  }

  lemma FinishFlags(buf: seq<byte>, ts: seq<Token>, buf': seq<byte>)
    requires |buf| == |buf'| && Pos(ts, |ts|) <= |buf| && FlagPos(ts, |ts|) < |buf|
    requires Stored(buf, ts) && AllFlagged(buf, ts, 8 - |ts| % 8)
    requires var x := buf[FlagPos(ts, |ts|)] / Pow2(8 - |ts| % 8); 0 <= x < 256 && buf' == buf[FlagPos(ts, |ts|) := x]
    ensures Stored(buf', ts) && AllFlagged(buf', ts, 0)
  {
    hide Pos, BitAt, Legal;
    forall i | 0 <= i < |ts|
      ensures TokenAt(buf', Pos(ts, i), ts[i]) && Flagged(buf', ts, i, 0)
    {
      assert TokenAt(buf, Pos(ts, i), ts[i]) && Flagged(buf, ts, i, 8 - |ts| % 8);
      FlagApart(ts, |ts| / 8, i);
      if i / 8 == |ts| / 8 {
        ShiftDown(buf[FlagPos(ts, |ts|)], 8 - |ts| % 8, i % 8);
      } else {
        PosGap(ts, i / 8 * 8, |ts| / 8 * 8);
      }
    }
  }

  lemma FlagFits(ts: seq<Token>, i: nat)
    requires i < |ts|
    ensures FlagPos(ts, i) < Pos(ts, i) && Pos(ts, i) + ByteLen(ts[i]) <= EndPos(ts)
  {
    PosMono(ts, i / 8 * 8, i);
    PosGap(ts, i, |ts|);
  }

  lemma NextToken(ts: seq<Token>, i: nat)
    requires i < |ts|
    ensures Pos(ts, i + 1) == Pos(ts, i) + ByteLen(ts[i]) + (if (i + 1) % 8 == 0 then 1 else 0)
    ensures (i + 1) % 8 != 0 ==> FlagPos(ts, i + 1) == FlagPos(ts, i)
  {
  }

  /** The sentinel keeps the register above 1 until eight flags are used. */
  lemma SentinelNotDone(b: byte, j: nat)
    requires j < 8
    ensures j > 0 ==> Register(b, j) > 1
  {
    Pow2Table();
    Pow2Mono(j, 7);
    DivLower(b + 256, 2, Pow2(j));
  }

  lemma SentinelBit(b: byte, j: nat)
    requires j < 8
    ensures Register(b, j) % 2 == BitAt(b, j)
  {
    Pow2Table();
    Pow2Add(7 - j, j);
    SentinelArith(b, Pow2(j), Pow2(7 - j));
  }

  lemma SentinelArith(b: byte, p: nat, q: nat)
    requires p > 0 && q * p == 128
    ensures (b + 256) / p % 2 == b / p % 2
  {
    assert 2 * q * p == 256;
    ModAddMul(b, 2 * q, p);
  }

  lemma SentinelShift(b: byte, j: nat)
    requires j < 8
    ensures Register(b, j) / 2 == Register(b, j + 1)
    ensures j == 7 ==> Register(b, j + 1) == 1
  {
    Pow2Table();
    DivPow2Add(b + 256, j, 1);
  }

  lemma PosStart(ts: seq<Token>)
    requires ts == []
    ensures Pos(ts, 0) == 1
  {
  }

  /** The end position after one more token; a full group makes room for the next flag byte. */
  lemma PosStep(ts: seq<Token>, t: Token)
    ensures Pos(ts + [t], |ts| + 1) == Pos(ts, |ts|) + ByteLen(t) + (if (|ts| + 1) % 8 == 0 then 1 else 0)
    ensures FlagPos(ts + [t], |ts| + 1) ==
            if (|ts| + 1) % 8 == 0 then Pos(ts, |ts|) + ByteLen(t) else FlagPos(ts, |ts|)
  {
    PosPrefix(ts, t, |ts|);
    PosPrefix(ts, t, |ts| / 8 * 8);
  }

  lemma FlagPosBefore(ts: seq<Token>)
    ensures FlagPos(ts, |ts|) < Pos(ts, |ts|)
  {
    PosMono(ts, |ts| / 8 * 8, |ts|);
  }
}
