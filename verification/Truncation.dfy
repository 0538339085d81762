/** Where the format reads a stream, the decompressor reads the same; given only the front of it, the decompressor runs
    short exactly when what it was to read goes on past the end. */
module Truncation {
  import opened Arith
  import opened Bits
  import opened Canonical
  import opened Format
  import opened Encoding
  import opened FixedCodes
  import opened LaxFormat

  /** q, read from n bits of the stream: the same, or short if it takes more. */
  ghost predicate Follows<T>(q: Parsed<T>, n: nat, a: Answer<T>) {
    q.Got? ==> if q.next <= n then a == Read(q.val, q.next) else a.Short?
  }

  /** Output q, read from n bits of the stream into the given room: the same, short if it takes more, or as much of it
      as there is room for. */
  ghost predicate Fills(q: Parsed<Bytes>, n: nat, room: nat, a: Answer<Bytes>) {
    q.Got? ==>
      match a
      case Read(v, e) => q == Got(v, e) && e <= n && |v| <= room
      case Short(f) => q.next > n && f <= q.val
      case Full(f) => |q.val| > room && f == q.val[..room]
      case _ => false
  }

  lemma BitsFollow(s: Bits, f: Bits, p: nat, n: nat)
    requires f <= s
    ensures Follows(ReadBits(s, p, n), |f|, LaxBits(f, p, n))
  {
    hide Val;
    if p + n <= |f| {
      assert f[p..p + n] == s[p..p + n];
    }
  }

  /** The front of the bits ahead has the low part of their value. */
  lemma FrontVal(s: Bits, f: Bits, p: nat, n: nat)
    requires f <= s && p + n <= |f|
    ensures Val(f[p..]) % Pow2(n) == Val(s[p..p + n])
  {
    hide Val;
    ValSplit(f[p..], n);
    assert f[p..][..n] == s[p..p + n];
  }

  /** A code cut short is not taken for another, nor for none. */
  lemma CutCode(s: Bits, f: Bits, p: nat, lens: Lens, sym: nat)
    requires Decodable(lens) && f <= s && SymAt(s, p, lens, sym) && p <= |f| < p + lens[sym]
    ensures var k := Stray(lens, Val(f[p..])); p + (if k == 0 then 15 else k) > |f|
  {
    hide RevCode, Decodable, Val;
    var n, v := |f| - p, Val(f[p..]);
    LengthBound(lens, sym);
    ValSplit(s[p..p + lens[sym]], n);
    assert s[p..p + lens[sym]][..n] == f[p..];
    ValBound(f[p..]);
    DivModUnique(v, Pow2(n), 0, v);
    assert Reaches(lens, n, v);
    StrayPast(lens, v, 11, n);
  }

  lemma LengthBound(lens: Lens, sym: nat)
    requires Decodable(lens) && sym < |lens|
    ensures lens[sym] <= 15
  {
  }

  lemma SymFollows(s: Bits, f: Bits, p: nat, lens: Lens)
    requires Decodable(lens) && f <= s
    ensures Follows(ReadSym(s, p, lens), |f|, LaxSym(f, p, lens))
  {
    hide RevCode, Decodable, Val, Stray;
    var q, a := ReadSym(s, p, lens), ReadSym(f, p, lens);
    if q.Got? {
      if q.next <= |f| {
        assert f[p..p + lens[q.val]] == s[p..p + lens[q.val]];
        assert SymAt(f, p, lens, q.val);
      }
      if a.Got? {
        assert f[p..p + lens[a.val]] == s[p..p + lens[a.val]];
        SymUnique(s, p, lens, q.val, a.val);
      } else if p <= |f| {
        CutCode(s, f, p, lens, q.val);
      }
    }
  }

  /** A copy leaves what was there before, and a shorter copy is the front of a longer one. */
  lemma {:induction false} CopyFront(out: Bytes, dist: nat, len: nat, k: nat)
    requires 1 <= dist <= |out| && k <= len
    ensures CopyBack(out, dist, k) <= CopyBack(out, dist, len) && out <= CopyBack(out, dist, len)
    decreases len
  {
    if len > 0 {
      var more := out + [out[|out| - dist]];
      CopyFront(more, dist, len - 1, if k > 0 then k - 1 else 0);
    }
  }

  /** A block's output begins with what was there before. */
  lemma {:induction false} BodyGrows(s: Bits, p: nat, ll: Lens, dl: Lens, out: Bytes)
    ensures var q := ReadBody(s, p, ll, dl, out); q.Got? ==> out <= q.val
    decreases |s| - p
  {
    hide ReadItem, CopyBack;
    var item := ReadItem(s, p, ll, dl);
    if item.Got? && item.val.Tok? && Fits(|out|, item.val.t) {
      if item.val.t.Match? {
        CopyFront(out, item.val.t.dist, item.val.t.len, 0);
      }
      BodyGrows(s, item.next, ll, dl, Apply(out, item.val.t));
    }
  }

  /** The token that a length symbol begins. */
  ghost function ReadMatch(s: Bits, p: nat, dl: Lens, sym: nat): (r: Parsed<Token>)
    requires 257 <= sym <= 287
    ensures r.Got? ==> p <= r.next <= |s| && r.val.Match? && r.val.dist >= 1
  {
    if sym > 285 then Fail
    else
      var (x, p1) :- ReadBits(s, p, LenExtra(sym));
      var (item, p2) :- ReadDist(s, p1, dl, LenBase(sym) + x);
      Got(item.t, p2)
  }

  lemma MatchFollows(s: Bits, f: Bits, p: nat, dl: Lens, sym: nat)
    requires Decodable(dl) && f <= s && 257 <= sym <= 287
    ensures Follows(ReadMatch(s, p, dl, sym), |f|, LaxMatch(f, p, dl, sym))
  {
    hide Decodable, ReadSym, LaxSym, LenBase, LenExtra, DistBase, DistExtra, ReadBits, LaxBits;
    var q := ReadMatch(s, p, dl, sym);
    if q.Got? {
      var x := ReadBits(s, p, LenExtra(sym));
      BitsFollow(s, f, p, LenExtra(sym));
      var d := ReadSym(s, x.next, dl);
      SymFollows(s, f, x.next, dl);
      BitsFollow(s, f, d.next, DistExtra(d.val));
      BitsAhead(s, d.next, DistExtra(d.val));
    }
  }

  lemma BitsAhead(s: Bits, p: nat, n: nat)
    ensures ReadBits(s, p, n).Got? ==> ReadBits(s, p, n).next == p + n <= |s|
  {
  }

  lemma ItemMatch(s: Bits, p: nat, ll: Lens, dl: Lens)
    requires ReadItem(s, p, ll, dl).Got? && ReadSym(s, p, ll).Got? && ReadSym(s, p, ll).val > 256
    ensures var item, sym := ReadItem(s, p, ll, dl), ReadSym(s, p, ll);
            && sym.val <= 285
            && var m := ReadMatch(s, sym.next, dl, sym.val);
            && m.Got? && item == Got(Tok(m.val), m.next)
  {
    hide ReadSym, ReadBits, LenBase, LenExtra, DistBase, DistExtra;
  }

  /** What a block goes on with when that is a match. */
  lemma MatchGoes(s: Bits, p: nat, ll: Lens, dl: Lens, out: Bytes)
    requires ReadBody(s, p, ll, dl, out).Got? && ReadSym(s, p, ll).Got? && ReadSym(s, p, ll).val > 256
    ensures var q, sym := ReadBody(s, p, ll, dl, out), ReadSym(s, p, ll);
            && sym.val <= 287
            && var m := ReadMatch(s, sym.next, dl, sym.val);
            && m.Got? && sym.next <= m.next <= q.next && m.val.dist <= |out|
            && ReadBody(s, m.next, ll, dl, CopyBack(out, m.val.dist, m.val.len)) == q
            && CopyBack(out, m.val.dist, m.val.len) <= q.val
  {
    hide ReadSym, CopyBack, ReadMatch, ReadItem;
    ItemMatch(s, p, ll, dl);
    SymAhead(s, p, ll);
    var item := ReadItem(s, p, ll, dl);
    BodyGrows(s, item.next, ll, dl, Apply(out, item.val.t));
  }

  /** And when it is a literal or the end. */
  lemma LiteralGoes(s: Bits, p: nat, ll: Lens, dl: Lens, out: Bytes)
    requires ReadBody(s, p, ll, dl, out).Got?
    ensures var q, sym := ReadBody(s, p, ll, dl, out), ReadSym(s, p, ll);
            && sym.Got? && p < sym.next <= |s| && out <= q.val
            && (sym.val < 256 ==>
                  && ReadBody(s, sym.next, ll, dl, out + [sym.val]) == q
                  && sym.next <= q.next && out + [sym.val] <= q.val)
            && (sym.val == 256 ==> q == Got(out, sym.next))
  {
    hide ReadSym, CopyBack, ReadDist, ReadBits;
    SymAhead(s, p, ll);
    var sym := ReadSym(s, p, ll);
    BodyGrows(s, p, ll, dl, out);
    if sym.val < 256 {
      BodyGrows(s, sym.next, ll, dl, out + [sym.val]);
    }
  }

  lemma SymAhead(s: Bits, p: nat, lens: Lens)
    ensures var q := ReadSym(s, p, lens); q.Got? ==> p < q.next <= |s|
  {
  }

  lemma {:induction false} BodyFollows(s: Bits, f: Bits, p: nat, ll: Lens, dl: Lens, out: Bytes, room: nat)
    requires Decodable(ll) && Decodable(dl) && f <= s && |out| <= room
    ensures Fills(ReadBody(s, p, ll, dl, out), |f|, room, LaxBody(f, p, ll, dl, out, room))
    decreases |s| - p
  {
    hide Decodable, ReadSym, LaxSym, ReadBody, ReadMatch, LaxMatch, CopyBack;
    var q := ReadBody(s, p, ll, dl, out);
    if q.Got? {
      LiteralGoes(s, p, ll, dl, out);
      var sym := ReadSym(s, p, ll);
      SymFollows(s, f, p, ll);
      if sym.val > 256 {
        MatchGoes(s, p, ll, dl, out);
      }
      if sym.next <= |f| {
        if sym.val < 256 {
          if |out| < room {
            BodyFollows(s, f, sym.next, ll, dl, out + [sym.val], room);
          }
        } else if sym.val > 256 {
          var m := ReadMatch(s, sym.next, dl, sym.val);
          MatchFollows(s, f, sym.next, dl, sym.val);
          if m.next <= |f| {
            if m.val.len <= room - |out| {
              BodyFollows(s, f, m.next, ll, dl, CopyBack(out, m.val.dist, m.val.len), room);
            } else {
              CopyFront(out, m.val.dist, m.val.len, room - |out|);
            }
          }
        }
      }
    }
  }

  lemma {:induction false} LensFollow(s: Bits, f: Bits, p: nat, cl: Lens, n: nat, acc: Lens)
    requires Decodable(cl) && f <= s && p <= |f|
    ensures Follows(ReadLens(s, p, cl, n, acc), |f|, LaxLens(f, p, cl, n, acc))
    decreases n - |acc|
  {
    hide Decodable, ReadSym, LaxSym, ReadBits, LaxBits, RepeatBits;
    var q := ReadLens(s, p, cl, n, acc);
    if q.Got? && |acc| < n {
      var sym := ReadSym(s, p, cl);
      SymFollows(s, f, p, cl);
      if sym.val < 16 {
        LensAhead(s, sym.next, cl, n, acc + [sym.val]);
        if sym.next <= |f| {
          LensFollow(s, f, sym.next, cl, n, acc + [sym.val]);
        }
      } else {
        var x := ReadBits(s, sym.next, RepeatBits(sym.val));
        BitsFollow(s, f, sym.next, RepeatBits(sym.val));
        BitsAhead(s, sym.next, RepeatBits(sym.val));
        var more := acc + Rep(if sym.val == 16 then acc[|acc| - 1] else 0, RepeatBase(sym.val) + x.val);
        LensAhead(s, x.next, cl, n, more);
        if x.next <= |f| {
          LensFollow(s, f, x.next, cl, n, more);
        }
      }
    }
  }

  lemma LensAhead(s: Bits, p: nat, cl: Lens, n: nat, acc: Lens)
    ensures ReadLens(s, p, cl, n, acc).Got? ==> p <= ReadLens(s, p, cl, n, acc).next
  {
  }

  lemma {:induction false} ClensFollow(s: Bits, f: Bits, p: nat, n: nat, i: nat, acc: Lens)
    requires i <= n <= 19 && |acc| == 19 && f <= s && p <= |f|
    ensures var q, a := ReadClens(s, p, n, i, acc), ReadClens(f, p, n, i, acc);
            q.Got? ==> if q.next <= |f| then a == q else a.Fail?
    decreases n - i
  {
    hide Val, ClOrder;
    if i < n && p + 3 <= |f| {
      assert f[p..p + 3] == s[p..p + 3];
      var v := ReadBits(s, p, 3);
      ClensFollow(s, f, v.next, n, i + 1, acc[ClOrder(i) := v.val]);
    }
  }

  lemma CountsFollow(s: Bits, f: Bits, p: nat)
    requires f <= s
    ensures var q, a := LaxCounts(s, p), LaxCounts(f, p);
            q.Read? ==> q.next == p + 14 && if q.next <= |f| then a == q else a.Short?
  {
    hide Val;
    BitsFollow(s, f, p, 5);
    BitsFollow(s, f, p + 5, 5);
    BitsFollow(s, f, p + 10, 4);
  }

  /** The lengths that head a dynamic block, whatever they are. */
  ghost function ReadSizes(s: Bits, p: nat): (r: Parsed<(Lens, Lens)>)
    ensures r.Got? ==> p < r.next
  {
    var n := LaxCounts(s, p);
    if !n.Read? then Fail
    else
      var (cl, p1) :- ReadClens(s, n.next, n.val.2, 0, Rep(0, 19));
      if !Decodable(cl) then Fail
      else
        var (lens, p2) :- ReadLens(s, p1, cl, n.val.0 + n.val.1, []);
        Got((lens[..n.val.0], lens[n.val.0..]), p2)
  }

  lemma TablesSizes(s: Bits, p: nat)
    ensures var q := ReadSizes(s, p);
            ReadTables(s, p) == if q.Got? && Decodable(q.val.0) && Decodable(q.val.1) then q else Fail
  {
    hide Val, Decodable, ReadClens, ReadLens, Rep;
    if p + 14 <= |s| {
      ValBound(s[p + 10..p + 14]);
      Pow2Table();
    }
  }

  lemma SizesFollow(s: Bits, f: Bits, p: nat)
    requires f <= s
    ensures Follows(ReadSizes(s, p), |f|, LaxSizes(f, p))
  {
    hide Val, Decodable, ReadClens, ReadLens, LaxLens, Rep, LaxCounts;
    if ReadSizes(s, p).Got? {
      var n := LaxCounts(s, p);
      CountsFollow(s, f, p);
      var cl := ReadClens(s, n.next, n.val.2, 0, Rep(0, 19));
      ClensAhead(s, n.next, n.val.2, 0, Rep(0, 19));
      LensAhead(s, cl.next, cl.val, n.val.0 + n.val.1, []);
      if n.next <= |f| {
        ClensFollow(s, f, n.next, n.val.2, 0, Rep(0, 19));
        if cl.next <= |f| {
          LensFollow(s, f, cl.next, cl.val, n.val.0 + n.val.1, []);
        }
      }
    }
  }

  lemma TablesFollow(s: Bits, f: Bits, p: nat)
    requires f <= s
    ensures Follows(ReadTables(s, p), |f|, LaxTables(f, p))
    ensures var q := ReadTables(s, p); q.Got? ==> Decodable(q.val.0) && Decodable(q.val.1)
  {
    hide Decodable, ReadSizes, LaxSizes, ReadTables;
    TablesSizes(s, p);
    SizesFollow(s, f, p);
  }

  lemma ClensAhead(s: Bits, p: nat, n: nat, i: nat, acc: Lens)
    requires i <= n <= 19 && |acc| == 19
    ensures ReadClens(s, p, n, i, acc).Got? ==> p <= ReadClens(s, p, n, i, acc).next
  {
  }

  lemma {:induction false} ReadBytesConcat(s: Bits, p: nat, i: nat, n: nat)
    requires p + 8 * (i + n) <= |s|
    ensures ReadBytes(s, p, i + n) == ReadBytes(s, p, i) + ReadBytes(s, p + 8 * i, n)
    decreases n
  {
    if n > 0 {
      ReadBytesConcat(s, p, i, n - 1);
    }
  }

  lemma {:induction false} ReadBytesFollow(s: Bits, f: Bits, p: nat, n: nat)
    requires f <= s && p + 8 * n <= |f|
    ensures ReadBytes(f, p, n) == ReadBytes(s, p, n)
    decreases n
  {
    hide Val;
    if n > 0 {
      ReadBytesFollow(s, f, p, n - 1);
      assert f[p + 8 * (n - 1)..p + 8 * n] == s[p + 8 * (n - 1)..p + 8 * n];
    }
  }

  lemma DataFollows(s: Bits, f: Bits, p: nat, n: nat, out: Bytes, room: nat)
    requires f <= s && p <= |f| && |out| <= room && p + 8 * n <= |s|
    ensures Fills(Got(out + ReadBytes(s, p, n), p + 8 * n), |f|, room, LaxData(f, p, n, out, room))
  {
    hide Val, ReadBytes;
    var k, there := Min(n, room - |out|), (|f| - p) / 8;
    var m := Min(k, there);
    ReadBytesFollow(s, f, p, m);
    ReadBytesConcat(s, p, m, n - m);
  }

  lemma StoredFollows(s: Bits, f: Bits, p: nat, out: Bytes, room: nat)
    requires f <= s && |out| <= room
    ensures Fills(ReadStored(s, p, out), |f|, room, LaxStored(f, p, out, room))
  {
    hide Val, ReadBytes, Align, LaxData;
    if ReadStored(s, p, out).Got? {
      var n := ReadBits(s, Align(p), 16);
      var m := ReadBits(s, n.next, 16);
      BitsFollow(s, f, Align(p), 16);
      BitsFollow(s, f, n.next, 16);
      if m.next <= |f| {
        DataFollows(s, f, m.next, n.val, out, room);
      }
    }
  }

  /** A block's output begins with what was there before. */
  lemma BlockGrows(s: Bits, p: nat, out: Bytes)
    ensures var q := ReadBlock(s, p, out); q.Got? ==> out <= q.val
  {
    hide ReadBody, ReadTables, FixedLit, FixedDist, Val;
    var k := ReadBits(s, p, 2);
    if k.Got? {
      BodyGrows(s, k.next, FixedLit(), FixedDist(), out);
      var t := ReadTables(s, k.next);
      if t.Got? {
        BodyGrows(s, t.next, t.val.0, t.val.1, out);
      }
    }
  }

  lemma BlockFollows(s: Bits, f: Bits, p: nat, out: Bytes, room: nat)
    requires f <= s && |out| <= room
    ensures Fills(ReadBlock(s, p, out), |f|, room, LaxBlock(f, p, out, room))
  {
    hide ReadBody, LaxBody, ReadTables, LaxTables, ReadStored, LaxStored, FixedLit, FixedDist, Val, Decodable;
    BlockGrows(s, p, out);
    BitsFollow(s, f, p, 2);
    BitsAhead(s, p, 2);
    StoredFollows(s, f, p + 2, out, room);
    FixedDecodable();
    BodyFollows(s, f, p + 2, FixedLit(), FixedDist(), out, room);
    TablesFollow(s, f, p + 2);
    var t := ReadTables(s, p + 2);
    if t.Got? {
      BodyFollows(s, f, t.next, t.val.0, t.val.1, out, room);
    }
  }

  lemma {:induction false} InflateGrows(s: Bits, p: nat, out: Bytes)
    ensures var q := Inflate(s, p, out); q.Got? ==> out <= q.val
    decreases |s| - p
  {
    hide ReadBlock, Val;
    var f := ReadBits(s, p, 1);
    if f.Got? {
      BlockGrows(s, f.next, out);
      var b := ReadBlock(s, f.next, out);
      if b.Got? && f.val != 1 {
        InflateGrows(s, b.next, b.val);
      }
    }
  }

  lemma {:induction false} InflateFollows(s: Bits, f: Bits, p: nat, out: Bytes, room: nat)
    requires f <= s && |out| <= room
    ensures Fills(Inflate(s, p, out), |f|, room, LaxInflate(f, p, out, room))
    decreases |s| - p
  {
    hide ReadBlock, LaxBlock, Val;
    var q := Inflate(s, p, out);
    if q.Got? {
      InflateGrows(s, p, out);
      BitsFollow(s, f, p, 1);
      BitsAhead(s, p, 1);
      BlockFollows(s, f, p + 1, out, room);
      var b := ReadBlock(s, p + 1, out);
      if ReadBits(s, p, 1).val != 1 {
        InflateGrows(s, b.next, b.val);
        if |b.val| <= room {
          InflateFollows(s, f, b.next, b.val, room);
        }
      }
    }
  }
}
