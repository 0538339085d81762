/** The decompressor's token loop: literals two at a time while input and output allow, matches, and the end of a
    block. */
module BodyReader {
  import opened Arith
  import opened Bits
  import opened Canonical
  import opened Format
  import opened LaxFormat
  import opened LookupTable
  import opened BitReader
  import opened SymbolReader
  import opened StoredReader
  import opened TableReader
  import opened MatchCopy
  import opened Truncation

  /** s_length_base, s_length_extra, s_dist_base and s_dist_extra. */
  const LENGTH_BASE: seq<nat> := [3, 4, 5, 6, 7, 8, 9, 10, 11, 13, 15, 17, 19, 23, 27, 31, 35, 43, 51, 59, 67, 83, 99,
      115,
                                  131, 163, 195, 227, 258, 0, 0]
  const LENGTH_EXTRA: seq<nat> := [0, 0, 0, 0, 0, 0, 0, 0, 1, 1, 1, 1, 2, 2, 2, 2, 3, 3, 3, 3, 4, 4, 4, 4, 5, 5, 5, 5,
      0, 0, 0]
  const DIST_BASE: seq<nat> := [1, 2, 3, 4, 5, 7, 9, 13, 17, 25, 33, 49, 65, 97, 129, 193, 257, 385, 513, 769, 1025,
      1537,
                                2049, 3073, 4097, 6145, 8193, 12289, 16385, 24577, 0, 0]
  const DIST_EXTRA: seq<nat> := [0, 0, 0, 0, 1, 1, 2, 2, 3, 3, 4, 4, 5, 5, 6, 6, 7, 7, 8, 8, 9, 9, 10, 10, 11, 11, 12,
      12, 13, 13, 0, 0]

  /** The tables agree with section 3.2.5, and end with two reserved entries. */
  lemma LengthTable(sym: nat)
    requires 257 <= sym <= 287
    ensures LENGTH_BASE[sym - 257] == LaxLenBase(sym) && LENGTH_EXTRA[sym - 257] == LaxLenExtra(sym)
  {
    if sym < 272 {
      LengthTableLow(sym);
    } else {
      LengthTableHigh(sym);
    }
  }

  lemma LengthTableLow(sym: nat)
    requires 257 <= sym < 272
    ensures LENGTH_BASE[sym - 257] == LaxLenBase(sym) && LENGTH_EXTRA[sym - 257] == LaxLenExtra(sym)
  {
    Pow2Table();
  }

  lemma LengthTableHigh(sym: nat)
    requires 272 <= sym <= 287
    ensures LENGTH_BASE[sym - 257] == LaxLenBase(sym) && LENGTH_EXTRA[sym - 257] == LaxLenExtra(sym)
  {
    Pow2Table();
  }

  lemma DistTable(sym: nat)
    requires sym <= 29
    ensures DIST_BASE[sym] == DistBase(sym) && DIST_EXTRA[sym] == DistExtra(sym)
  {
    if sym < 8 {
      DistTableLow(sym);
    } else if sym < 16 {
      DistTableMid(sym);
    } else {
      DistTableHigh(sym);
    }
  }

  lemma DistTableLow(sym: nat)
    requires sym < 8
    ensures DIST_BASE[sym] == DistBase(sym) && DIST_EXTRA[sym] == DistExtra(sym)
  {
    Pow2Table();
  }

  lemma DistTableMid(sym: nat)
    requires 8 <= sym < 16
    ensures DIST_BASE[sym] == DistBase(sym) && DIST_EXTRA[sym] == DistExtra(sym)
  {
    Pow2Table();
  }

  lemma DistTableHigh(sym: nat)
    requires 16 <= sym <= 29
    ensures DIST_BASE[sym] == DistBase(sym) && DIST_EXTRA[sym] == DistExtra(sym)
  {
    Pow2Table();
  }

  lemma TableBounds(i: nat)
    ensures |LENGTH_BASE| == |LENGTH_EXTRA| == 31 && |DIST_BASE| == |DIST_EXTRA| == 32
    ensures i < 31 ==> LENGTH_EXTRA[i] <= 13
    ensures i < 32 ==> DIST_EXTRA[i] <= 13
  {
  }

  /** Reading on from here leads to q. */
  ghost predicate Leads(q: Answer<Bytes>, input: Bytes, p: nat, ll: Lens, dl: Lens, out: Bytes, room: nat) {
    |out| <= room && LaxBody(BytesBits(input), p, ll, dl, out, room) == q
  }

  /** As Leads, just after the symbol that stood at p was read. */
  ghost predicate LeadsSym(q: Answer<Bytes>, input: Bytes, p: nat, ll: Lens, dl: Lens, out: Bytes, room: nat, sym: nat,
      next: nat) {
    Leads(q, input, p, ll, dl, out, room) && p < next && LaxSym(BytesBits(input), p, ll) == Read(sym, next)
  }

  /** What a block goes on with: a literal or its end. */
  lemma LeadsLiteral(q: Answer<Bytes>, input: Bytes, p: nat, ll: Lens, dl: Lens, out: Bytes, room: nat)
    requires Leads(q, input, p, ll, dl, out, room)
    ensures var sym := LaxSym(BytesBits(input), p, ll);
            && (sym.Short? ==> q == Short(out))
            && (sym.Read? && sym.next == p ==> q == Stuck)
            && (sym.Read? && p < sym.next && sym.val < 256 ==>
                  if |out| == room then q == Full(out)
                  else Leads(q, input, sym.next, ll, dl, out + [sym.val], room))
            && (sym.Read? && p < sym.next && sym.val == 256 ==> q == Read(out, sym.next))
  {
    hide LaxSym, BytesBits, LaxMatch, CopyBack;
  }

  /** A literal with no bits leaves the block stuck where it was. */
  lemma LeadsStuck(q: Answer<Bytes>, input: Bytes, p: nat, ll: Lens, dl: Lens, out: Bytes, room: nat, b: byte)
    requires Leads(q, input, p, ll, dl, out, room) && |out| < room
    requires var sym := LaxSym(BytesBits(input), p, ll); sym.Read? && sym.next == p
    ensures q == Stuck && Leads(q, input, p, ll, dl, out + [b], room)
  {
    hide LaxSym, BytesBits, LaxMatch, CopyBack;
  }

  /** What it goes on with when that is a match. */
  lemma LeadsMatch(q: Answer<Bytes>, input: Bytes, p: nat, ll: Lens, dl: Lens, out: Bytes, room: nat, sym: nat,
      next: nat)
    requires LeadsSym(q, input, p, ll, dl, out, room, sym, next) && 256 < sym <= 287
    ensures var m := LaxMatch(BytesBits(input), next, dl, sym);
            if m.Short? then q == Short(out)
            else if m.Bad? || m.val.dist == 0 || m.val.dist > |out| then q == Bad(out)
            else if m.val.len > room - |out| then q == Full(CopyBack(out, m.val.dist, room - |out|))
            else Leads(q, input, m.next, ll, dl, CopyBack(out, m.val.dist, m.val.len), room)
  {
    hide LaxSym, BytesBits, LaxMatch, CopyBack;
  }

  /** The low nine bits of a slot are its symbol; bit 8 tells literals from the rest. */
  lemma SlotBits(temp: nat)
    ensures temp / 256 % 2 == 1 <==> temp % 512 >= 256
    ensures temp % 512 < 256 ==> temp % 256 == temp % 512
  {
  }

  /** One literal, or the first symbol that is none, near the end of the input or output. */
  method SlowStep(r: Reader, t: Tables, out: array<byte>, o: nat, ghost q: Answer<Bytes>)
    returns (st: Outcome, stop: bool, sym: nat, o': nat, ghost h: nat)
    requires r.Valid() && t.Built() && o <= out.Length
    requires Leads(q, r.input, r.Here(), t.lit.lens, t.dist.lens, out[..o], out.Length)
    modifies r, out
    ensures r.Valid() && o <= o' <= out.Length && out[..o] == old(out[..o]) && old(r.Here()) <= r.Here()
    ensures st != Running ==> Told(q, st, out[..o'], r)
    ensures st == Running && !stop ==>
              o' == o + 1 && Leads(q, r.input, r.Here(), t.lit.lens, t.dist.lens, out[..o'], out.Length)
    ensures st == Running && stop ==>
              && 256 <= sym < 288 && old(r.Here()) < r.Here()
              && LeadsSym(q, r.input, h, t.lit.lens, t.dist.lens, out[..o'], out.Length, sym, r.Here())
  {
    hide LaxSym, LaxBody, BytesBits, Lookup.Ready, Span;
    h, o', stop := r.Here(), o, false;
    LeadsLiteral(q, r.input, h, t.lit.lens, t.dist.lens, out[..o], out.Length);
    var ok;
    ok, sym := Decode(r, t.lit);
    if !ok {
      return Starved, false, sym, o, h;
    }
    if sym >= 256 {
      return Running, true, sym, o, h;
    }
    if o >= out.Length {
      return HasMoreOutput, false, sym, o, h;
    }
    ghost var was := out[..o];
    if r.Here() == h {
      LeadsStuck(q, r.input, h, t.lit.lens, t.dist.lens, was, out.Length, sym as byte);
    }
    out[o] := sym;
    o' := o + 1;
    assert out[..o'] == was + [sym as byte];
    st := Running;
  }

  /** One symbol by the table alone: a literal, or one that is none; no length when no code fits. */
  method FastOne(r: Reader, t: Tables, ghost out: Bytes, ghost room: nat, ghost q: Answer<Bytes>)
    returns (literal: bool, sym: nat, len: nat)
    requires r.Valid() && t.Built() && r.numBits >= 15 && |out| < room
    requires Leads(q, r.input, r.Here(), t.lit.lens, t.dist.lens, out, room)
    modifies r
    ensures r.Valid() && len <= 15 && r.Here() == old(r.Here()) + len
    ensures r.numBits == old(r.numBits) - len && r.pos == old(r.pos)
    ensures literal <==> sym < 256
    ensures len == 0 ==> q == Stuck
    ensures len > 0 ==> sym < 288
    ensures len > 0 && literal ==> Leads(q, r.input, r.Here(), t.lit.lens, t.dist.lens, out + [sym as byte], room)
    ensures len > 0 && !literal ==>
        LeadsSym(q, r.input, old(r.Here()), t.lit.lens, t.dist.lens, out, room, sym, r.Here())
  {
    hide LaxSym, LaxBody, BytesBits, Lookup.Ready, Span;
    LeadsLiteral(q, r.input, r.Here(), t.lit.lens, t.dist.lens, out, room);
    var temp;
    temp, len := FastSymbol(r, t.lit);
    SlotBits(temp);
    literal, sym := temp / 256 % 2 == 0, temp % 512;
  }

  /** Two symbols from one refill of the bit buffer. */
  method FastStep(r: Reader, t: Tables, out: array<byte>, o: nat, ghost q: Answer<Bytes>)
    returns (st: Outcome, stop: bool, sym: nat, o': nat, ghost h: nat)
    requires r.Valid() && t.Built() && o + 2 <= out.Length && r.pos + 4 <= |r.input|
    requires Leads(q, r.input, r.Here(), t.lit.lens, t.dist.lens, out[..o], out.Length)
    modifies r, out
    ensures r.Valid() && o <= o' <= out.Length && out[..o] == old(out[..o]) && old(r.Here()) <= r.Here()
    ensures st != Running ==> Told(q, st, out[..o'], r)
    ensures st == Running && !stop ==>
              o' == o + 2 && Leads(q, r.input, r.Here(), t.lit.lens, t.dist.lens, out[..o'], out.Length)
    ensures st == Running && stop ==>
              && 256 <= sym < 288 && old(r.Here()) < r.Here()
              && LeadsSym(q, r.input, h, t.lit.lens, t.dist.lens, out[..o'], out.Length, sym, r.Here())
  {
    hide LaxSym, LaxBody, BytesBits, Lookup.Ready, Span, Leads, LeadsSym;
    if r.numBits < 30 {
      r.Pull(4);
    }
    ghost var was := out[..o];
    h, o', st := r.Here(), o, Failed;
    var literal, counter, len := FastOne(r, t, was, out.Length, q);
    stop, sym := !literal, counter;
    if len == 0 || stop {
      return if len == 0 then Failed else Running, stop, sym, o, h;
    }
    h := r.Here();
    var sym2;
    literal, sym2, len := FastOne(r, t, was + [counter as byte], out.Length, q);
    if len == 0 {
      return;
    }
    out[o] := counter;
    assert out[..o + 1] == was + [counter as byte];
    if !literal {
      return Running, true, sym2, o + 1, h;
    }
    out[o + 1] := sym2;
    assert out[..o + 2] == was + [counter as byte] + [sym2 as byte];
    return Running, false, 0, o + 2, h;
  }

  /** Extra bits are asked for only when there are any. */
  method ExtraBits(r: Reader, n: nat) returns (ok: bool, x: nat)
    requires r.Valid() && n <= 13
    modifies r
    ensures r.Valid() && old(r.Here()) <= r.Here()
    ensures var q := LaxBits(BytesBits(r.input), old(r.Here()), n);
            if ok then q == Read(x, r.Here()) else q.Short? && r.pos == |r.input|
  {
    hide BytesBits, Span;
    ok, x := true, 0;
    AllBits(r.input);
    if n > 0 {
      ok, x := r.GetBits(n);
    } else {
      assert BytesBits(r.input)[r.Here()..r.Here()] == [];
    }
  }

  /** The length and distance of a match whose first symbol has just been read; distance zero when there is none. */
  method ReadMatch(r: Reader, t: Tables, sym: nat) returns (ok: bool, len: nat, dist: nat)
    requires r.Valid() && t.Built() && 256 < sym < 288
    modifies r
    ensures r.Valid() && old(r.Here()) <= r.Here()
    ensures var m := LaxMatch(BytesBits(r.input), old(r.Here()), t.dist.lens, sym);
            if !ok then m.Short? && r.pos == |r.input|
            else if m.Bad? then dist == 0
            else m == Read(Match(len, dist), r.Here())
  {
    hide LaxSym, BytesBits, Lookup.Ready, Span, LaxBits, LaxLenBase, LaxLenExtra, DistBase, DistExtra, Val;
    hide LENGTH_BASE, LENGTH_EXTRA, DIST_BASE, DIST_EXTRA;
    len, dist := 0, 0;
    TableBounds(sym - 257);
    LengthTable(sym);
    var x, y, dsym;
    ok, x := ExtraBits(r, LENGTH_EXTRA[sym - 257]);
    if !ok {
      return;
    }
    len := LENGTH_BASE[sym - 257] + x;
    ok, dsym := Decode(r, t.dist);
    if !ok {
      return;
    }
    TableBounds(dsym);
    if dsym <= 29 {
      DistTable(dsym);
    } else {
      NoDistance(dsym);
      AllBits(r.input);
      NoBits(BytesBits(r.input), r.Here());
    }
    ok, y := ExtraBits(r, DIST_EXTRA[dsym]);
    if !ok {
      return;
    }
    dist := DIST_BASE[dsym] + y;
  }

  /** The distance symbols that the format reserves stand for no distance. */
  lemma NoDistance(sym: nat)
    requires 30 <= sym < 32
    ensures DIST_BASE[sym] == 0 && DIST_EXTRA[sym] == 0
  {
  }

  /** Reads and copies a match. */
  method MatchStep(r: Reader, t: Tables, out: array<byte>, o: nat, sym: nat, ghost h: nat, ghost q: Answer<Bytes>)
    returns (st: Outcome, o': nat)
    requires r.Valid() && t.Built() && o <= out.Length && 256 < sym < 288
    requires LeadsSym(q, r.input, h, t.lit.lens, t.dist.lens, out[..o], out.Length, sym, r.Here())
    modifies r, out
    ensures r.Valid() && o <= o' <= out.Length && out[..o] == old(out[..o]) && old(r.Here()) <= r.Here()
    ensures st != Running ==> Told(q, st, out[..o'], r)
    ensures st == Running ==> Leads(q, r.input, r.Here(), t.lit.lens, t.dist.lens, out[..o'], out.Length)
  {
    hide LaxSym, LaxBody, BytesBits, Lookup.Ready, Span, CopyBack, LaxMatch, Leads, LENGTH_BASE, LENGTH_EXTRA,
         DIST_BASE, DIST_EXTRA;
    LeadsMatch(q, r.input, h, t.lit.lens, t.dist.lens, out[..o], out.Length, sym, r.Here());
    var ok, len, dist := ReadMatch(r, t, sym);
    if !ok {
      return Starved, o;
    }
    if dist == 0 || dist > o || o == 0 {
      return Failed, o;
    }
    var full;
    ghost var was := out[..o];
    full, o' := CopyMatch(out, o, dist, len);
    CopyFront(was, dist, o' - o, 0);
    assert out[..o] == out[..o'][..o];
    st := if full then HasMoreOutput else Running;
  }

  /** What is at the front of the output stays at the front. */
  lemma Front(out: array<byte>, a: nat, b: nat)
    requires b <= a <= out.Length
    ensures out[..a][..b] == out[..b]
  {
  }

  /** Literals up to the first symbol that is none. */
  method Literals(r: Reader, t: Tables, out: array<byte>, o: nat, ghost q: Answer<Bytes>)
    returns (st: Outcome, sym: nat, o': nat, ghost h: nat)
    requires r.Valid() && t.Built() && o <= out.Length
    requires Leads(q, r.input, r.Here(), t.lit.lens, t.dist.lens, out[..o], out.Length)
    modifies r, out
    ensures r.Valid() && o <= o' <= out.Length && out[..o] == old(out[..o]) && old(r.Here()) <= r.Here()
    ensures st != Running ==> Told(q, st, out[..o'], r)
    ensures st == Running ==>
              && 256 <= sym < 288 && old(r.Here()) < r.Here()
              && LeadsSym(q, r.input, h, t.lit.lens, t.dist.lens, out[..o'], out.Length, sym, r.Here())
  {
    hide LaxSym, LaxBody, BytesBits, Lookup.Ready, Span, Leads, LeadsSym;
    o', h := o, r.Here();
    var stop := false;
    while true
      invariant r.Valid() && t.Built() && o <= o' <= out.Length && out[..o] == old(out[..o]) &&
          old(r.Here()) <= r.Here()
      invariant Leads(q, r.input, r.Here(), t.lit.lens, t.dist.lens, out[..o'], out.Length)
      decreases out.Length - o'
    {
      ghost var at := o';
      Front(out, at, o);
      if |r.input| - r.pos < 4 || out.Length - o' < 2 {
        st, stop, sym, o', h := SlowStep(r, t, out, o', q);
      } else {
        st, stop, sym, o', h := FastStep(r, t, out, o', q);
      }
      Front(out, at, o);
      if st != Running || stop {
        return;
      }
    }
  }

  /** The tokens of a block. */
  method Body(r: Reader, t: Tables, out: array<byte>, o: nat) returns (st: Outcome, o': nat)
    requires r.Valid() && t.Built() && o <= out.Length
    modifies r, out
    ensures r.Valid() && o <= o' <= out.Length && out[..o] == old(out[..o]) && old(r.Here()) <= r.Here()
    ensures Told(LaxBody(BytesBits(r.input), old(r.Here()), t.lit.lens, t.dist.lens, old(out[..o]), out.Length), st,
                 out[..o'], r)
  {
    hide LaxSym, LaxBody, BytesBits, Lookup.Ready, Span;
    ghost var q := LaxBody(BytesBits(r.input), r.Here(), t.lit.lens, t.dist.lens, out[..o], out.Length);
    o' := o;
    while true
      invariant r.Valid() && t.Built() && o <= o' <= out.Length && out[..o] == old(out[..o]) &&
          old(r.Here()) <= r.Here()
      invariant Leads(q, r.input, r.Here(), t.lit.lens, t.dist.lens, out[..o'], out.Length)
      decreases 8 * |r.input| - r.Here()
    {
      ghost var at := o';
      Front(out, at, o);
      var sym;
      ghost var h;
      st, sym, o', h := Literals(r, t, out, o', q);
      Front(out, at, o);
      if st != Running {
        return;
      }
      if sym == 256 {
        LeadsLiteral(q, r.input, h, t.lit.lens, t.dist.lens, out[..o'], out.Length);
        return;
      }
      at := o';
      Front(out, at, o);
      st, o' := MatchStep(r, t, out, o', sym, h, q);
      Front(out, at, o);
      if st != Running {
        return;
      }
    }
  }
}
