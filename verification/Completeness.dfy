/** Where the decompressor reads exactly the format: codes that leave no bit string over, and no reserved symbol. */
module Completeness {
  import opened Arith
  import opened Bits
  import opened Canonical
  import opened Format
  import opened Encoding
  import opened FixedCodes
  import opened LaxFormat
  import opened Truncation

  /** The codes fill the code space; the single code, or none, that a decoder accepts as well does not. */
  predicate Complete(lens: Lens) {
    Decodable(lens) && NextCode(lens, 16) == 65536
  }

  /** The first l bits of v as a code, most significant bit first. */
  function CodeAt(v: nat, l: nat): (c: nat)
    ensures c < Pow2(l)
  {
    if l == 0 then 0
    else
      DivNonNeg(v, Pow2(l - 1));
      2 * CodeAt(v, l - 1) + v / Pow2(l - 1) % 2
  }

  lemma {:induction false} CodeAtReversed(v: nat, l: nat)
    ensures Reverse(CodeAt(v, l), l) == v % Pow2(l)
  {
    if l > 0 {
      hide Reverse, Pow2;
      DivNonNeg(v, Pow2(l - 1));
      CodeAtReversed(v, l - 1);
      ModPow2Succ(v, l - 1);
      ReverseNext(CodeAt(v, l - 1), v / Pow2(l - 1) % 2, l - 1);
    }
  }

  lemma ReverseNext(c: nat, b: nat, l: nat)
    requires b < 2
    ensures Reverse(2 * c + b, l + 1) == Reverse(c, l) + b * Pow2(l)
  {
    assert (2 * c + b) % 2 == b && (2 * c + b) / 2 == c;
  }

  /** The symbol whose code is the given one of those of its length. */
  lemma {:induction false} Ranked(lens: Lens, l: nat, k: nat) returns (s: nat)
    requires k < Count(lens, l)
    ensures s < |lens| && lens[s] == l && Count(lens[..s], l) == k
    decreases |lens|
  {
    var r := lens[..|lens| - 1];
    if lens[|lens| - 1] == l && Count(r, l) == k {
      s := |lens| - 1;
    } else {
      s := Ranked(r, l, k);
      assert r[..s] == lens[..s];
    }
  }

  /** Bits that start with no code of up to l bits are numerically past all of them. */
  lemma {:induction false} PastCodes(lens: Lens, v: nat, l: nat)
    requires forall s: nat :: s < |lens| && 0 < lens[s] <= l ==> RevCode(lens, s) != v % Pow2(lens[s])
    ensures CodeAt(v, l + 1) >= NextCode(lens, l + 1)
    decreases l
  {
    hide RevCode, Count;
    if l > 0 {
      PastCodes(lens, v, l - 1);
      var c, first := CodeAt(v, l), NextCode(lens, l);
      if c < first + Count(lens, l) {
        var s := Ranked(lens, l, c - first);
        RankedCode(lens, v, l, s);
        assert false;
      }
    }
  }

  lemma RankedCode(lens: Lens, v: nat, l: nat, s: nat)
    requires s < |lens| && lens[s] == l && CodeAt(v, l) == NextCode(lens, l) + Count(lens[..s], l)
    ensures RevCode(lens, s) == v % Pow2(l)
  {
    CodeAtReversed(v, l);
  }

  /** Every bit string starts with some code of a complete set. */
  lemma Covered(lens: Lens, v: nat) returns (s: nat)
    requires Complete(lens)
    ensures s < |lens| && 0 < lens[s] <= 15 && RevCode(lens, s) == v % Pow2(lens[s])
  {
    hide RevCode, NextCode;
    if i: nat :| i < |lens| && 0 < lens[i] && RevCode(lens, i) == v % Pow2(lens[i]) {
      s := i;
    } else {
      PastCodes(lens, v, 15);
      Pow2Table();
      assert false;
    }
  }

  /** With a complete code, a symbol is read where the format reads it and nowhere else. */
  lemma CompleteSym(s: Bits, p: nat, lens: Lens)
    requires Complete(lens)
    ensures var q := ReadSym(s, p, lens);
            LaxSym(s, p, lens) == if q.Got? then Read(q.val, q.next) else Short([])
  {
    hide RevCode, Decodable, NextCode, Val, Reaches;
    if ReadSym(s, p, lens).Fail? && p <= |s| {
      var v := Val(s[p..]);
      var sym := Covered(lens, v);
      if p + lens[sym] <= |s| {
        StandsThere(s, p, lens, sym);
      } else {
        CoveredLong(lens, v, sym, |s| - p);
      }
    }
  }

  lemma StandsThere(s: Bits, p: nat, lens: Lens, sym: nat)
    requires sym < |lens| && lens[sym] > 0 && p + lens[sym] <= |s|
    requires RevCode(lens, sym) == Val(s[p..]) % Pow2(lens[sym])
    ensures SymAt(s, p, lens, sym)
  {
    hide RevCode, Val;
    FrontVal(s, s, p, lens[sym]);
  }

  /** The walk does not end within bits that a longer code begins with. */
  lemma CoveredLong(lens: Lens, v: nat, sym: nat, n: nat)
    requires sym < |lens| && n < lens[sym] <= 15 && RevCode(lens, sym) == v % Pow2(lens[sym])
    ensures var k := Stray(lens, v); (if k == 0 then 15 else k) > n
  {
    hide RevCode;
    ModPow2Mod(v, n, lens[sym]);
    assert Reaches(lens, n, v);
    StrayPast(lens, v, 11, n);
  }

  /** With an incomplete code, fifteen bits that start with no code are read as symbol 0 all the same. */
  lemma StraySym(lens: Lens, s: Bits)
    requires Decodable(lens) && !Complete(lens) && |s| == 15 && Val(s) == 32767
    ensures ReadSym(s, 0, lens).Fail? && LaxSym(s, 0, lens).Read?
  {
    hide LaxSym, Decodable;
    var q := ReadSym(s, 0, lens);
    if q.Got? {
      OnlyCode(lens, q.val);
      ValSplit(s, lens[q.val]);
      OnesLow(lens[q.val]);
    }
    StrayRead(s, lens);
  }

  lemma StrayRead(s: Bits, lens: Lens)
    requires |s| == 15 && ReadSym(s, 0, lens).Fail?
    ensures LaxSym(s, 0, lens).Read?
  {
    hide ReadSym, Stray;
  }

  /** The only code of an incomplete set is all zeros. */
  lemma OnlyCode(lens: Lens, sym: nat)
    requires Decodable(lens) && !Complete(lens) && sym < |lens| && lens[sym] > 0
    ensures lens[sym] <= 15 && RevCode(lens, sym) == 0
  {
    SingleNextCode(lens, sym, lens[sym]);
    UsedAfter(lens, sym);
    CountBelowUsed(lens[..sym], lens[sym]);
    ReverseZero(lens[sym]);
  }

  lemma {:induction false} ReverseZero(l: nat)
    ensures Reverse(0, l) == 0
  {
    if l > 0 {
      ReverseZero(l - 1);
    }
  }

  lemma OnesLow(l: nat)
    requires 0 < l <= 15
    ensures 32767 % Pow2(l) != 0
  {
    Pow2Table();
  }

  /** A code reads every bit string as the format does exactly when it is complete. */
  lemma ReadsExactly(lens: Lens)
    requires Decodable(lens)
    ensures Complete(lens) <==>
            forall s: Bits, p: nat :: LaxSym(s, p, lens).Read? ==> ReadSym(s, p, lens).Got?
  {
    hide LaxSym, ReadSym, Decodable, NextCode;
    if Complete(lens) {
      forall s: Bits, p: nat
        ensures LaxSym(s, p, lens).Read? ==> ReadSym(s, p, lens).Got?
      {
        CompleteSym(s, p, lens);
      }
    } else {
      var s := ToBits(32767, 15);
      ValToBits(32767, 15);
      Pow2Table();
      StraySym(lens, s);
    }
  }

  /** No reserved length symbol is met among the tokens of a block. */
  ghost predicate Plain(s: Bits, p: nat, ll: Lens, dl: Lens, out: Bytes, room: nat)
    requires |out| <= room
    decreases |s| - p
  {
    var sym := LaxSym(s, p, ll);
    sym.Read? && p < sym.next ==>
      if sym.val < 256 then |out| < room ==> Plain(s, sym.next, ll, dl, out + [sym.val], room)
      else 256 < sym.val <= 287 ==>
             && sym.val <= 285
             && var m := LaxMatch(s, sym.next, dl, sym.val);
             && (m.Read? && 1 <= m.val.dist <= |out| && m.val.len <= room - |out| ==>
                   Plain(s, m.next, ll, dl, CopyBack(out, m.val.dist, m.val.len), room))
  }

  lemma MatchExactly(s: Bits, p: nat, dl: Lens, sym: nat)
    requires Complete(dl) && 257 <= sym <= 285 && LaxMatch(s, p, dl, sym).Read?
    ensures var m := LaxMatch(s, p, dl, sym); ReadMatch(s, p, dl, sym) == Got(m.val, m.next)
  {
    hide Complete, ReadSym, LaxSym, LenBase, LenExtra, DistBase, DistExtra;
    CompleteSym(s, p + LenExtra(sym), dl);
    BitsFollow(s, s, p, LenExtra(sym));
  }

  /** The item that a symbol begins. */
  lemma ItemIs(s: Bits, p: nat, ll: Lens, dl: Lens)
    requires ReadSym(s, p, ll).Got?
    ensures var sym, item := ReadSym(s, p, ll), ReadItem(s, p, ll, dl);
            && (sym.val < 256 ==> item == Got(Tok(Literal(sym.val)), sym.next))
            && (sym.val == 256 ==> item == Got(EndOfBlock, sym.next))
            && (sym.val > 285 ==> item == Fail)
            && (256 < sym.val <= 285 ==>
                  var m := ReadMatch(s, sym.next, dl, sym.val);
                  m.Got? ==> item == Got(Tok(m.val), m.next))
  {
    hide ReadSym, ReadBits, LenBase, LenExtra, DistBase, DistExtra;
  }

  /** With complete codes, a block that is read through is one of the format exactly when it has no reserved symbol. */
  lemma {:induction false} BodyExactly(s: Bits, p: nat, ll: Lens, dl: Lens, out: Bytes, room: nat)
    requires Complete(ll) && Complete(dl) && |out| <= room && LaxBody(s, p, ll, dl, out, room).Read?
    ensures var a, q := LaxBody(s, p, ll, dl, out, room), ReadBody(s, p, ll, dl, out);
            if Plain(s, p, ll, dl, out, room) then q == Got(a.val, a.next) else q == Fail
    decreases |s| - p
  {
    hide Complete, ReadSym, LaxSym, ReadItem, ReadMatch, LaxMatch, CopyBack;
    CompleteSym(s, p, ll);
    ItemIs(s, p, ll, dl);
    var sym := ReadSym(s, p, ll);
    if sym.val < 256 {
      BodyExactly(s, sym.next, ll, dl, out + [sym.val], room);
    } else if 256 < sym.val <= 285 {
      MatchExactly(s, sym.next, dl, sym.val);
      var m := ReadMatch(s, sym.next, dl, sym.val);
      BodyExactly(s, m.next, ll, dl, CopyBack(out, m.val.dist, m.val.len), room);
    }
  }

  lemma {:induction false} LensExactly(s: Bits, p: nat, cl: Lens, n: nat, acc: Lens)
    requires Complete(cl) && LaxLens(s, p, cl, n, acc).Read?
    ensures var a := LaxLens(s, p, cl, n, acc); ReadLens(s, p, cl, n, acc) == Got(a.val, a.next)
    decreases n - |acc|
  {
    hide Complete, ReadSym, LaxSym, RepeatBits;
    if |acc| < n {
      CompleteSym(s, p, cl);
      var sym := ReadSym(s, p, cl);
      if sym.val < 16 {
        LensExactly(s, sym.next, cl, n, acc + [sym.val]);
      } else {
        var x := ReadBits(s, sym.next, RepeatBits(sym.val));
        LensExactly(s, x.next, cl, n,
                    acc + Rep(if sym.val == 16 then acc[|acc| - 1] else 0, RepeatBase(sym.val) + x.val));
      }
    }
  }

  /** The code that a dynamic block's code lengths are written in. */
  function ClensAt(s: Bits, p: nat): Answer<Lens> {
    var (n, p1) :- LaxCounts(s, p);
    LaxClens(s, p1, n.2)
  }

  lemma SizesExactly(s: Bits, p: nat)
    requires LaxSizes(s, p).Read? && Complete(ClensAt(s, p).val)
    ensures var a := LaxSizes(s, p); ReadSizes(s, p) == Got(a.val, a.next)
  {
    hide Complete, Decodable, ReadClens, LaxLens, ReadLens, Rep, LaxCounts;
    var n := LaxCounts(s, p);
    var cl := LaxClens(s, n.next, n.val.2);
    LensExactly(s, cl.next, cl.val, n.val.0 + n.val.1, []);
  }

  lemma TablesExactly(s: Bits, p: nat)
    requires LaxTables(s, p).Read? && Complete(ClensAt(s, p).val)
    ensures var a := LaxTables(s, p); ReadTables(s, p) == Got(a.val, a.next)
  {
    hide Complete, Decodable, ReadSizes, LaxSizes, ReadTables, ClensAt;
    SizesExactly(s, p);
    TablesSizes(s, p);
  }

  lemma StoredExactly(s: Bits, p: nat, out: Bytes, room: nat)
    requires |out| <= room && LaxStored(s, p, out, room).Read?
    ensures var a := LaxStored(s, p, out, room); ReadStored(s, p, out) == Got(a.val, a.next)
  {
    hide Val, Align, ReadBytes;
  }

  /** The codes that a block sends are complete. */
  ghost predicate CompleteBlock(s: Bits, p: nat) {
    var k := LaxBits(s, p, 2);
    k.Read? && k.val == 2 && LaxTables(s, k.next).Read? ==>
      var t := LaxTables(s, k.next).val;
      Complete(t.0) && Complete(t.1) && Complete(ClensAt(s, k.next).val)
  }

  /** It meets no reserved symbol. */
  ghost predicate PlainBlock(s: Bits, p: nat, out: Bytes, room: nat)
    requires |out| <= room
  {
    var k := LaxBits(s, p, 2);
    && (k.Read? && k.val == 1 ==> Plain(s, k.next, FixedLit(), FixedDist(), out, room))
    && (k.Read? && k.val == 2 ==>
          var t := LaxTables(s, k.next);
          t.Read? ==> Plain(s, t.next, t.val.0, t.val.1, out, room))
  }

  lemma FixedComplete()
    ensures Complete(FixedLit()) && Complete(FixedDist())
  {
    hide NextCode, Used;
    FixedDecodable();
    UsedTwo(FixedLit(), 0, 1);
    UsedTwo(FixedDist(), 0, 1);
  }

  lemma BlockExactly(s: Bits, p: nat, out: Bytes, room: nat)
    requires |out| <= room && LaxBlock(s, p, out, room).Read? && CompleteBlock(s, p)
    ensures var a, q := LaxBlock(s, p, out, room), ReadBlock(s, p, out);
            if PlainBlock(s, p, out, room) then q == Got(a.val, a.next) else q == Fail
  {
    hide Complete, ReadBody, LaxBody, ReadStored, LaxStored, ReadTables, LaxTables, Plain, FixedLit, FixedDist, Val,
         ClensAt;
    var k := ReadBits(s, p, 2);
    ValBound(s[p..p + 2]);
    Pow2Table();
    if k.val == 0 {
      StoredExactly(s, k.next, out, room);
    } else if k.val == 1 {
      FixedComplete();
      BodyExactly(s, k.next, FixedLit(), FixedDist(), out, room);
    } else {
      TablesExactly(s, k.next);
      var t := ReadTables(s, k.next);
      BodyExactly(s, t.next, t.val.0, t.val.1, out, room);
    }
  }

  /** The codes that a stream sends are complete. */
  ghost predicate CompleteStream(s: Bits, p: nat, out: Bytes, room: nat)
    requires |out| <= room
    decreases |s| - p
  {
    var f := LaxBits(s, p, 1);
    f.Read? ==>
      && CompleteBlock(s, f.next)
      && var b := LaxBlock(s, f.next, out, room);
      b.Read? && f.val != 1 ==> CompleteStream(s, b.next, b.val, room)
  }

  /** It meets no reserved symbol. */
  ghost predicate PlainStream(s: Bits, p: nat, out: Bytes, room: nat)
    requires |out| <= room
    decreases |s| - p
  {
    var f := LaxBits(s, p, 1);
    f.Read? ==>
      && PlainBlock(s, f.next, out, room)
      && var b := LaxBlock(s, f.next, out, room);
      b.Read? && f.val != 1 ==> PlainStream(s, b.next, b.val, room)
  }

  /** With complete codes, a stream that is read through is one of the format exactly when it has no reserved symbol. */
  lemma {:induction false} InflateExactly(s: Bits, p: nat, out: Bytes, room: nat)
    requires |out| <= room && LaxInflate(s, p, out, room).Read? && CompleteStream(s, p, out, room)
    ensures var a, q := LaxInflate(s, p, out, room), Inflate(s, p, out);
            if PlainStream(s, p, out, room) then q == Got(a.val, a.next) else q == Fail
    decreases |s| - p
  {
    hide LaxBlock, ReadBlock, CompleteBlock, PlainBlock, Val;
    var f := ReadBits(s, p, 1);
    var b := LaxBlock(s, f.next, out, room);
    BlockExactly(s, f.next, out, room);
    if f.val != 1 {
      InflateExactly(s, b.next, b.val, room);
    }
  }

  /** A static block of the byte 97, the reserved symbol 286 at distance 1, and the end. */
  function ReservedBlock(): Bits {
    var ll, dl := FixedLit(), FixedDist();
    ToBits(1, 1) + (ToBits(1, 2) + (EncSym(ll, 97) + (EncSym(ll, 286) + (EncSym(dl, 0) + EncSym(ll, 256)))))
  }

  lemma LaxSymBack(s: Bits, p: nat, lens: Lens, sym: nat)
    requires Complete(lens) && HasCode(lens, sym) && At(s, p, EncSym(lens, sym))
    ensures LaxSym(s, p, lens) == Read(sym, p + lens[sym]) && |EncSym(lens, sym)| == lens[sym]
  {
    hide NextCode, RevCode, ReadSym, LaxSym;
    ReadSymBack(s, p, lens, sym);
    CompleteSym(s, p, lens);
  }

  /** What stands where in it. */
  lemma ReservedParts()
    ensures var s, ll := ReservedBlock(), FixedLit();
            && |s| == 31 && LaxBits(s, 0, 1) == Read(1, 1) && LaxBits(s, 1, 2) == Read(1, 3)
            && LaxSym(s, 3, ll) == Read(97, 11) && LaxSym(s, 11, ll) == Read(286, 19)
            && LaxSym(s, 19, FixedDist()) == Read(0, 24) && LaxSym(s, 24, ll) == Read(256, 31)
  {
    hide EncSym, ToBits, LaxSym, Complete, FixedLit, FixedDist, At, ReadBits;
    var s, ll, dl := ReservedBlock(), FixedLit(), FixedDist();
    FixedComplete();
    FixedLitTable(97);
    FixedLitTable(286);
    FixedLitTable(256);
    FixedDistTable(0);
    var d := EncSym(dl, 0) + EncSym(ll, 256);
    var c := EncSym(ll, 286) + d;
    var b := EncSym(ll, 97) + c;
    var a := ToBits(1, 2) + b;
    AllAt(s);
    AtConcat(s, 0, ToBits(1, 1), a);
    OneBits(s, 0, 1);
    AtConcat(s, 1, ToBits(1, 2), b);
    OneBits(s, 1, 2);
    AtConcat(s, 3, EncSym(ll, 97), c);
    LaxSymBack(s, 3, ll, 97);
    AtConcat(s, 11, EncSym(ll, 286), d);
    LaxSymBack(s, 11, ll, 286);
    AtConcat(s, 19, EncSym(dl, 0), EncSym(ll, 256));
    LaxSymBack(s, 19, dl, 0);
    LaxSymBack(s, 24, ll, 256);
  }

  lemma AllAt(s: Bits)
    ensures At(s, 0, s)
  {
  }

  lemma OneBits(s: Bits, p: nat, n: nat)
    requires 0 < n && At(s, p, ToBits(1, n))
    ensures |ToBits(1, n)| == n && LaxBits(s, p, n) == Read(1, p + n)
  {
    ValToBits(1, n);
    ReadBitsBack(s, p, 1, n);
  }

  /** The decompressor takes that block; the format does not. */
  lemma ReservedTaken()
    ensures LaxInflate(ReservedBlock(), 0, [], 1) == Read([97], 31) && Inflate(ReservedBlock(), 0, []).Fail?
  {
    hide ReservedBlock, LaxSym, FixedLit, FixedDist, LaxBits, Complete, Inflate, LaxTables, LaxStored;
    var s, ll, dl := ReservedBlock(), FixedLit(), FixedDist();
    ReservedParts();
    assert LaxBits(s, 19, 0) == Read(0, 19) && LaxBits(s, 24, 0) == Read(0, 24) by {
      NoBits(s, 19);
      NoBits(s, 24);
    }
    assert LaxMatch(s, 19, dl, 286) == Read(Match(0, 1), 24);
    assert LaxBody(s, 24, ll, dl, [97], 1) == Read([97], 31);
    assert LaxBody(s, 11, ll, dl, [97], 1) == Read([97], 31);
    var none: Bytes := [];
    assert none + [97] == [97];
    assert LaxBody(s, 3, ll, dl, [], 1) == Read([97], 31);
    assert !Plain(s, 11, ll, dl, [97], 1);
    assert !Plain(s, 3, ll, dl, [], 1);
    InflateExactly(s, 0, [], 1);
  }
}
