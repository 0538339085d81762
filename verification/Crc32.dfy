/** CRC-32 by table: the unrolled loop computes the reflected CRC of section 8 of RFC 1952, bit by bit. */
module Crc32 {
  // Bit operations, named so that proofs about whole steps need not look inside them.

  function Xor(a: bv32, b: bv32): bv32 {
    a ^ b
  }

  function Half(x: bv32): bv32 {
    x >> 1
  }

  function Low(x: bv32): bv32 {
    x & 0xFF
  }

  function High(x: bv32): bv32 {
    x & 0xFFFF_FF00
  }

  /** The polynomial, if the low bit is set. */
  function Poly(x: bv32): bv32 {
    (0 - (x & 1)) & 0xEDB88320
  }

  /** One bit: the remainder shifted, less the polynomial if a one fell out. */
  function Shift(x: bv32): bv32 {
    (x >> 1) ^ ((0 - (x & 1)) & 0xEDB88320)
  }

  lemma ShiftIs(x: bv32)
    ensures Shift(x) == Xor(Half(x), Poly(x))
  {
  }

  function Shift8(x: bv32): bv32 {
    Shift(Shift(Shift(Shift(Shift(Shift(Shift(Shift(x))))))))
  }

  /** The bitwise definition: each byte is added and shifted out bit by bit. */
  function Run(c: bv32, data: seq<bv8>): bv32 {
    if data == [] then c else Shift8(Xor(Run(c, data[..|data| - 1]), data[|data| - 1] as bv32))
  }

  /** A checksum begins and ends complemented. */
  function Crc(crc: bv32, data: seq<bv8>): bv32 {
    Xor(Run(Xor(crc, 0xFFFF_FFFF), data), 0xFFFF_FFFF)
  }

  // ---- Shifting is linear, so a byte can be shifted out by one table entry.

  lemma PolyXor(x: bv32, y: bv32)
    ensures Poly(Xor(x, y)) == Xor(Poly(x), Poly(y))
  {
  }

  lemma HalfXor(x: bv32, y: bv32)
    ensures Half(Xor(x, y)) == Xor(Half(x), Half(y))
  {
  }

  lemma XorSwap(a: bv32, b: bv32)
    ensures Xor(a, b) == Xor(b, a)
  {
  }

  lemma XorAssoc(a: bv32, b: bv32, c: bv32)
    ensures Xor(Xor(a, b), c) == Xor(a, Xor(b, c))
  {
  }

  lemma Regroup(a: bv32, b: bv32, c: bv32, d: bv32)
    ensures Xor(Xor(a, b), Xor(c, d)) == Xor(Xor(a, c), Xor(b, d))
  {
    hide Xor;
    XorAssoc(a, b, Xor(c, d));
    XorAssoc(b, c, d);
    XorSwap(b, c);
    XorAssoc(c, b, d);
    XorAssoc(a, c, Xor(b, d));
  }

  lemma ShiftXor(x: bv32, y: bv32)
    ensures Shift(Xor(x, y)) == Xor(Shift(x), Shift(y))
  {
    hide Poly, Half, Xor, Shift;
    ShiftIs(x);
    ShiftIs(y);
    ShiftIs(Xor(x, y));
    PolyXor(x, y);
    HalfXor(x, y);
    Regroup(Half(x), Half(y), Poly(x), Poly(y));
  }

  lemma Shift8Xor(x: bv32, y: bv32)
    ensures Shift8(Xor(x, y)) == Xor(Shift8(x), Shift8(y))
  {
    hide Shift, Xor;
    var a, b := x, y;
    ShiftXor(a, b);
    a, b := Shift(a), Shift(b);
    ShiftXor(a, b);
    a, b := Shift(a), Shift(b);
    ShiftXor(a, b);
    a, b := Shift(a), Shift(b);
    ShiftXor(a, b);
    a, b := Shift(a), Shift(b);
    ShiftXor(a, b);
    a, b := Shift(a), Shift(b);
    ShiftXor(a, b);
    a, b := Shift(a), Shift(b);
    ShiftXor(a, b);
    a, b := Shift(a), Shift(b);
    ShiftXor(a, b);
  }

  lemma EvenShift(x: bv32)
    requires x & 1 == 0
    ensures Shift(x) == Half(x)
  {
  }

  /** The bits above a byte shift down eight places without the polynomial. */
  lemma HighOut(x: bv32)
    ensures Shift8(High(x)) == x >> 8
  {
    hide Shift, Poly, Xor;
    var h := High(x);
    EvenShift(h);
    h := Half(h);
    EvenShift(h);
    h := Half(h);
    EvenShift(h);
    h := Half(h);
    EvenShift(h);
    h := Half(h);
    EvenShift(h);
    h := Half(h);
    EvenShift(h);
    h := Half(h);
    EvenShift(h);
    h := Half(h);
    EvenShift(h);
  }

  // ---- s_crc_table, eight entries a row.

  const ROW_00: seq<bv32> := [0x00000000, 0x77073096, 0xEE0E612C, 0x990951BA,
                               0x076DC419, 0x706AF48F, 0xE963A535, 0x9E6495A3]
  const ROW_08: seq<bv32> := [0x0EDB8832, 0x79DCB8A4, 0xE0D5E91E, 0x97D2D988,
                               0x09B64C2B, 0x7EB17CBD, 0xE7B82D07, 0x90BF1D91]
  const ROW_10: seq<bv32> := [0x1DB71064, 0x6AB020F2, 0xF3B97148, 0x84BE41DE,
                               0x1ADAD47D, 0x6DDDE4EB, 0xF4D4B551, 0x83D385C7]
  const ROW_18: seq<bv32> := [0x136C9856, 0x646BA8C0, 0xFD62F97A, 0x8A65C9EC,
                               0x14015C4F, 0x63066CD9, 0xFA0F3D63, 0x8D080DF5]
  const ROW_20: seq<bv32> := [0x3B6E20C8, 0x4C69105E, 0xD56041E4, 0xA2677172,
                               0x3C03E4D1, 0x4B04D447, 0xD20D85FD, 0xA50AB56B]
  const ROW_28: seq<bv32> := [0x35B5A8FA, 0x42B2986C, 0xDBBBC9D6, 0xACBCF940,
                               0x32D86CE3, 0x45DF5C75, 0xDCD60DCF, 0xABD13D59]
  const ROW_30: seq<bv32> := [0x26D930AC, 0x51DE003A, 0xC8D75180, 0xBFD06116,
                               0x21B4F4B5, 0x56B3C423, 0xCFBA9599, 0xB8BDA50F]
  const ROW_38: seq<bv32> := [0x2802B89E, 0x5F058808, 0xC60CD9B2, 0xB10BE924,
                               0x2F6F7C87, 0x58684C11, 0xC1611DAB, 0xB6662D3D]
  const ROW_40: seq<bv32> := [0x76DC4190, 0x01DB7106, 0x98D220BC, 0xEFD5102A,
                               0x71B18589, 0x06B6B51F, 0x9FBFE4A5, 0xE8B8D433]
  const ROW_48: seq<bv32> := [0x7807C9A2, 0x0F00F934, 0x9609A88E, 0xE10E9818,
                               0x7F6A0DBB, 0x086D3D2D, 0x91646C97, 0xE6635C01]
  const ROW_50: seq<bv32> := [0x6B6B51F4, 0x1C6C6162, 0x856530D8, 0xF262004E,
                               0x6C0695ED, 0x1B01A57B, 0x8208F4C1, 0xF50FC457]
  const ROW_58: seq<bv32> := [0x65B0D9C6, 0x12B7E950, 0x8BBEB8EA, 0xFCB9887C,
                               0x62DD1DDF, 0x15DA2D49, 0x8CD37CF3, 0xFBD44C65]
  const ROW_60: seq<bv32> := [0x4DB26158, 0x3AB551CE, 0xA3BC0074, 0xD4BB30E2,
                               0x4ADFA541, 0x3DD895D7, 0xA4D1C46D, 0xD3D6F4FB]
  const ROW_68: seq<bv32> := [0x4369E96A, 0x346ED9FC, 0xAD678846, 0xDA60B8D0,
                               0x44042D73, 0x33031DE5, 0xAA0A4C5F, 0xDD0D7CC9]
  const ROW_70: seq<bv32> := [0x5005713C, 0x270241AA, 0xBE0B1010, 0xC90C2086,
                               0x5768B525, 0x206F85B3, 0xB966D409, 0xCE61E49F]
  const ROW_78: seq<bv32> := [0x5EDEF90E, 0x29D9C998, 0xB0D09822, 0xC7D7A8B4,
                               0x59B33D17, 0x2EB40D81, 0xB7BD5C3B, 0xC0BA6CAD]
  const ROW_80: seq<bv32> := [0xEDB88320, 0x9ABFB3B6, 0x03B6E20C, 0x74B1D29A,
                               0xEAD54739, 0x9DD277AF, 0x04DB2615, 0x73DC1683]
  const ROW_88: seq<bv32> := [0xE3630B12, 0x94643B84, 0x0D6D6A3E, 0x7A6A5AA8,
                               0xE40ECF0B, 0x9309FF9D, 0x0A00AE27, 0x7D079EB1]
  const ROW_90: seq<bv32> := [0xF00F9344, 0x8708A3D2, 0x1E01F268, 0x6906C2FE,
                               0xF762575D, 0x806567CB, 0x196C3671, 0x6E6B06E7]
  const ROW_98: seq<bv32> := [0xFED41B76, 0x89D32BE0, 0x10DA7A5A, 0x67DD4ACC,
                               0xF9B9DF6F, 0x8EBEEFF9, 0x17B7BE43, 0x60B08ED5]
  const ROW_A0: seq<bv32> := [0xD6D6A3E8, 0xA1D1937E, 0x38D8C2C4, 0x4FDFF252,
                               0xD1BB67F1, 0xA6BC5767, 0x3FB506DD, 0x48B2364B]
  const ROW_A8: seq<bv32> := [0xD80D2BDA, 0xAF0A1B4C, 0x36034AF6, 0x41047A60,
                               0xDF60EFC3, 0xA867DF55, 0x316E8EEF, 0x4669BE79]
  const ROW_B0: seq<bv32> := [0xCB61B38C, 0xBC66831A, 0x256FD2A0, 0x5268E236,
                               0xCC0C7795, 0xBB0B4703, 0x220216B9, 0x5505262F]
  const ROW_B8: seq<bv32> := [0xC5BA3BBE, 0xB2BD0B28, 0x2BB45A92, 0x5CB36A04,
                               0xC2D7FFA7, 0xB5D0CF31, 0x2CD99E8B, 0x5BDEAE1D]
  const ROW_C0: seq<bv32> := [0x9B64C2B0, 0xEC63F226, 0x756AA39C, 0x026D930A,
                               0x9C0906A9, 0xEB0E363F, 0x72076785, 0x05005713]
  const ROW_C8: seq<bv32> := [0x95BF4A82, 0xE2B87A14, 0x7BB12BAE, 0x0CB61B38,
                               0x92D28E9B, 0xE5D5BE0D, 0x7CDCEFB7, 0x0BDBDF21]
  const ROW_D0: seq<bv32> := [0x86D3D2D4, 0xF1D4E242, 0x68DDB3F8, 0x1FDA836E,
                               0x81BE16CD, 0xF6B9265B, 0x6FB077E1, 0x18B74777]
  const ROW_D8: seq<bv32> := [0x88085AE6, 0xFF0F6A70, 0x66063BCA, 0x11010B5C,
                               0x8F659EFF, 0xF862AE69, 0x616BFFD3, 0x166CCF45]
  const ROW_E0: seq<bv32> := [0xA00AE278, 0xD70DD2EE, 0x4E048354, 0x3903B3C2,
                               0xA7672661, 0xD06016F7, 0x4969474D, 0x3E6E77DB]
  const ROW_E8: seq<bv32> := [0xAED16A4A, 0xD9D65ADC, 0x40DF0B66, 0x37D83BF0,
                               0xA9BCAE53, 0xDEBB9EC5, 0x47B2CF7F, 0x30B5FFE9]
  const ROW_F0: seq<bv32> := [0xBDBDF21C, 0xCABAC28A, 0x53B39330, 0x24B4A3A6,
                               0xBAD03605, 0xCDD70693, 0x54DE5729, 0x23D967BF]
  const ROW_F8: seq<bv32> := [0xB3667A2E, 0xC4614AB8, 0x5D681B02, 0x2A6F2B94,
                               0xB40BBE37, 0xC30C8EA1, 0x5A05DF1B, 0x2D02EF8D]

  const FRONT_40: seq<bv32> :=
    ROW_00 + ROW_08 + ROW_10 + ROW_18 + ROW_20 + ROW_28 + ROW_30 + ROW_38
  const FRONT_80: seq<bv32> :=
    FRONT_40 + ROW_40 + ROW_48 + ROW_50 + ROW_58 + ROW_60 + ROW_68 + ROW_70 + ROW_78
  const FRONT_C0: seq<bv32> :=
    FRONT_80 + ROW_80 + ROW_88 + ROW_90 + ROW_98 + ROW_A0 + ROW_A8 + ROW_B0 + ROW_B8
  const TABLE: seq<bv32> :=
    FRONT_C0 + ROW_C0 + ROW_C8 + ROW_D0 + ROW_D8 + ROW_E0 + ROW_E8 + ROW_F0 + ROW_F8

  function Byte(i: nat): bv32
    requires i < 0x100
  {
    i as bv32
  }

  /** The eight entries are the remainders of the byte values from k on. */
  predicate Remainders(row: seq<bv32>, k: nat) {
    && |row| == 8 && k + 8 <= 0x100
    && row[0] == Shift8(Byte(k)) && row[1] == Shift8(Byte(k + 1))
    && row[2] == Shift8(Byte(k + 2)) && row[3] == Shift8(Byte(k + 3))
    && row[4] == Shift8(Byte(k + 4)) && row[5] == Shift8(Byte(k + 5))
    && row[6] == Shift8(Byte(k + 6)) && row[7] == Shift8(Byte(k + 7))
  }

  lemma Row00()
    ensures Remainders(ROW_00, 0x00)
  {
  }

  lemma Row08()
    ensures Remainders(ROW_08, 0x08)
  {
  }

  lemma Row10()
    ensures Remainders(ROW_10, 0x10)
  {
  }

  lemma Row18()
    ensures Remainders(ROW_18, 0x18)
  {
  }

  lemma Row20()
    ensures Remainders(ROW_20, 0x20)
  {
  }

  lemma Row28()
    ensures Remainders(ROW_28, 0x28)
  {
  }

  lemma Row30()
    ensures Remainders(ROW_30, 0x30)
  {
  }

  lemma Row38()
    ensures Remainders(ROW_38, 0x38)
  {
  }

  lemma Row40()
    ensures Remainders(ROW_40, 0x40)
  {
  }

  lemma Row48()
    ensures Remainders(ROW_48, 0x48)
  {
  }

  lemma Row50()
    ensures Remainders(ROW_50, 0x50)
  {
  }

  lemma Row58()
    ensures Remainders(ROW_58, 0x58)
  {
  }

  lemma Row60()
    ensures Remainders(ROW_60, 0x60)
  {
  }

  lemma Row68()
    ensures Remainders(ROW_68, 0x68)
  {
  }

  lemma Row70()
    ensures Remainders(ROW_70, 0x70)
  {
  }

  lemma Row78()
    ensures Remainders(ROW_78, 0x78)
  {
  }

  lemma Row80()
    ensures Remainders(ROW_80, 0x80)
  {
  }

  lemma Row88()
    ensures Remainders(ROW_88, 0x88)
  {
  }

  lemma Row90()
    ensures Remainders(ROW_90, 0x90)
  {
  }

  lemma Row98()
    ensures Remainders(ROW_98, 0x98)
  {
  }

  lemma RowA0()
    ensures Remainders(ROW_A0, 0xA0)
  {
  }

  lemma RowA8()
    ensures Remainders(ROW_A8, 0xA8)
  {
  }

  lemma RowB0()
    ensures Remainders(ROW_B0, 0xB0)
  {
  }

  lemma RowB8()
    ensures Remainders(ROW_B8, 0xB8)
  {
  }

  lemma RowC0()
    ensures Remainders(ROW_C0, 0xC0)
  {
  }

  lemma RowC8()
    ensures Remainders(ROW_C8, 0xC8)
  {
  }

  lemma RowD0()
    ensures Remainders(ROW_D0, 0xD0)
  {
  }

  lemma RowD8()
    ensures Remainders(ROW_D8, 0xD8)
  {
  }

  lemma RowE0()
    ensures Remainders(ROW_E0, 0xE0)
  {
  }

  lemma RowE8()
    ensures Remainders(ROW_E8, 0xE8)
  {
  }

  lemma RowF0()
    ensures Remainders(ROW_F0, 0xF0)
  {
  }

  lemma RowF8()
    ensures Remainders(ROW_F8, 0xF8)
  {
  }

  /** The k entries so far are the remainders of the byte values below k. */
  ghost predicate TableTo(t: seq<bv32>, k: nat) {
    |t| == k <= 0x100 && forall i :: 0 <= i < k ==> t[i] == Shift8(Byte(i))
  }

  lemma AddRow(t: seq<bv32>, row: seq<bv32>, k: nat)
    requires TableTo(t, k) && Remainders(row, k)
    ensures TableTo(t + row, k + 8)
  {
    hide Shift8, Byte;
    var u := t + row;
    forall i | 0 <= i < k + 8
      ensures u[i] == Shift8(Byte(i))
    {
      if i >= k {
        assert u[i] == row[i - k];
      }
    }
  }

  lemma FrontQuarter()
    ensures TableTo(FRONT_40, 0x40)
  {
    hide TableTo, Remainders;
    FirstRow();
    var t := ROW_00;
    Row08();
    AddRow(t, ROW_08, 0x08);
    t := t + ROW_08;
    Row10();
    AddRow(t, ROW_10, 0x10);
    t := t + ROW_10;
    Row18();
    AddRow(t, ROW_18, 0x18);
    t := t + ROW_18;
    Row20();
    AddRow(t, ROW_20, 0x20);
    t := t + ROW_20;
    Row28();
    AddRow(t, ROW_28, 0x28);
    t := t + ROW_28;
    Row30();
    AddRow(t, ROW_30, 0x30);
    t := t + ROW_30;
    Row38();
    AddRow(t, ROW_38, 0x38);
  }

  lemma FrontHalf()
    ensures TableTo(FRONT_80, 0x80)
  {
    hide TableTo, Remainders, FRONT_40;
    FrontQuarter();
    var t := FRONT_40;
    Row40();
    AddRow(t, ROW_40, 0x40);
    t := t + ROW_40;
    Row48();
    AddRow(t, ROW_48, 0x48);
    t := t + ROW_48;
    Row50();
    AddRow(t, ROW_50, 0x50);
    t := t + ROW_50;
    Row58();
    AddRow(t, ROW_58, 0x58);
    t := t + ROW_58;
    Row60();
    AddRow(t, ROW_60, 0x60);
    t := t + ROW_60;
    Row68();
    AddRow(t, ROW_68, 0x68);
    t := t + ROW_68;
    Row70();
    AddRow(t, ROW_70, 0x70);
    t := t + ROW_70;
    Row78();
    AddRow(t, ROW_78, 0x78);
  }

  lemma FrontMost()
    ensures TableTo(FRONT_C0, 0xC0)
  {
    hide TableTo, Remainders, FRONT_80;
    FrontHalf();
    var t := FRONT_80;
    Row80();
    AddRow(t, ROW_80, 0x80);
    t := t + ROW_80;
    Row88();
    AddRow(t, ROW_88, 0x88);
    t := t + ROW_88;
    Row90();
    AddRow(t, ROW_90, 0x90);
    t := t + ROW_90;
    Row98();
    AddRow(t, ROW_98, 0x98);
    t := t + ROW_98;
    RowA0();
    AddRow(t, ROW_A0, 0xA0);
    t := t + ROW_A0;
    RowA8();
    AddRow(t, ROW_A8, 0xA8);
    t := t + ROW_A8;
    RowB0();
    AddRow(t, ROW_B0, 0xB0);
    t := t + ROW_B0;
    RowB8();
    AddRow(t, ROW_B8, 0xB8);
  }

  /** Every entry is its index shifted out bit by bit. */
  lemma TableIs()
    ensures TableTo(TABLE, 0x100)
  {
    hide TableTo, Remainders, FRONT_C0;
    FrontMost();
    var t := FRONT_C0;
    RowC0();
    AddRow(t, ROW_C0, 0xC0);
    t := t + ROW_C0;
    RowC8();
    AddRow(t, ROW_C8, 0xC8);
    t := t + ROW_C8;
    RowD0();
    AddRow(t, ROW_D0, 0xD0);
    t := t + ROW_D0;
    RowD8();
    AddRow(t, ROW_D8, 0xD8);
    t := t + ROW_D8;
    RowE0();
    AddRow(t, ROW_E0, 0xE0);
    t := t + ROW_E0;
    RowE8();
    AddRow(t, ROW_E8, 0xE8);
    t := t + ROW_E8;
    RowF0();
    AddRow(t, ROW_F0, 0xF0);
    t := t + ROW_F0;
    RowF8();
    AddRow(t, ROW_F8, 0xF8);
  }

  lemma FirstRow()
    ensures TableTo(ROW_00, 8)
  {
    hide Shift8;
    Row00();
    AddRow([], ROW_00, 0);
    assert [] + ROW_00 == ROW_00;
  }

  lemma Parts(x: bv32)
    ensures Xor(High(x), Low(x)) == x && Low(x) <= 0xFF
  {
  }

  lemma AboveByte(c: bv32, b: bv8)
    ensures Xor(c, b as bv32) >> 8 == c >> 8
  {
  }

  /** One table step is eight bit steps. */
  lemma TableStep(c: bv32, b: bv8)
    ensures 0 <= Low(Xor(c, b as bv32)) as int < |TABLE|
    ensures Xor(c >> 8, TABLE[Low(Xor(c, b as bv32)) as int]) == Shift8(Xor(c, b as bv32))
  {
    hide Shift8, Xor, High, Low, TABLE, Byte;
    var x := Xor(c, b as bv32);
    Parts(x);
    Shift8Xor(High(x), Low(x));
    HighOut(x);
    AboveByte(c, b);
    TableIs();
    ByteBack(Low(x));
  }

  lemma ByteBack(x: bv32)
    requires x <= 0xFF
    ensures 0 <= x as int < 0x100 && Byte(x as int) == x
  {
  }

  /** Feeding a result back in continues the checksum: chunks agree with the whole. */
  lemma {:induction false} RunConcat(c: bv32, a: seq<bv8>, b: seq<bv8>)
    ensures Run(c, a + b) == Run(Run(c, a), b)
  {
    hide Shift8, Xor;
    if b == [] {
      assert a + b == a;
    } else {
      RunConcat(c, a, b[..|b| - 1]);
      assert (a + b)[..|a + b| - 1] == a + b[..|b| - 1];
    }
  }

  lemma CrcChunks(crc: bv32, a: seq<bv8>, b: seq<bv8>)
    ensures Crc(Crc(crc, a), b) == Crc(crc, a + b)
  {
    hide Run, Xor;
    var c := Xor(crc, 0xFFFF_FFFF);
    RunConcat(c, a, b);
    Complement(Run(c, a));
  }

  lemma Complement(x: bv32)
    ensures Xor(Xor(x, 0xFFFF_FFFF), 0xFFFF_FFFF) == x
  {
  }

  /** One byte of the loop. */
  method Step(c: bv32, b: bv8, ghost c0: bv32, ghost done: seq<bv8>) returns (c': bv32)
    requires c == Run(c0, done)
    ensures c' == Run(c0, done + [b])
  {
    hide Shift8, Xor, Low, TABLE;
    TableStep(c, b);
    assert (done + [b])[..|done|] == done;
    c' := Xor(c >> 8, TABLE[Low(Xor(c, b as bv32)) as int]);
  }

  /** mz_crc32: four bytes a turn, then the rest. */
  method MzCrc32(crc: bv32, data: seq<bv8>) returns (r: bv32)
    ensures r == Crc(crc, data)
  {
    hide Run, Xor;
    var c := Xor(crc, 0xFFFF_FFFF);
    ghost var c0 := c;
    var i := 0;
    RunNone(c);
    while |data| - i >= 4
      invariant 0 <= i <= |data| && c == Run(c0, data[..i])
    {
      c := Step(c, data[i], c0, data[..i]);
      assert data[..i] + [data[i]] == data[..i + 1];
      c := Step(c, data[i + 1], c0, data[..i + 1]);
      assert data[..i + 1] + [data[i + 1]] == data[..i + 2];
      c := Step(c, data[i + 2], c0, data[..i + 2]);
      assert data[..i + 2] + [data[i + 2]] == data[..i + 3];
      c := Step(c, data[i + 3], c0, data[..i + 3]);
      assert data[..i + 3] + [data[i + 3]] == data[..i + 4];
      i := i + 4;
    }
    while i < |data|
      invariant 0 <= i <= |data| && c == Run(c0, data[..i])
    {
      c := Step(c, data[i], c0, data[..i]);
      assert data[..i] + [data[i]] == data[..i + 1];
      i := i + 1;
    }
    assert data[..i] == data;
    r := Xor(c, 0xFFFF_FFFF);
  }

  lemma RunNone(c: bv32)
    ensures Run(c, []) == c
  {
  }

  // ---- The complements, the polynomial and the bit order are those of the standard.

  lemma RunNext(c: bv32, data: seq<bv8>, b: bv8)
    ensures Run(c, data + [b]) == Shift8(Xor(Run(c, data), b as bv32))
  {
    assert (data + [b])[..|data|] == data;
  }

  /** The check value: the checksum of the digits 1 to 9. */
  lemma CheckValue()
    ensures Crc(0, [0x31] + [0x32] + [0x33] + [0x34] + [0x35] + [0x36] + [0x37] + [0x38] + [0x39]) == 0xCBF4_3926
  {
    CheckFront();
    hide Run;
    var c, d: seq<bv8> := 0xFFFF_FFFF as bv32, [0x31] + [0x32] + [0x33] + [0x34];
    RunNext(c, d, 0x35);
    assert Run(c, d + [0x35]) == 0x340A_C5E3;
    RunNext(c, d + [0x35], 0x36);
    assert Run(c, d + [0x35] + [0x36]) == 0xF68D_2C9E;
    RunNext(c, d + [0x35] + [0x36], 0x37);
    assert Run(c, d + [0x35] + [0x36] + [0x37]) == 0xAFFC_9660;
    RunNext(c, d + [0x35] + [0x36] + [0x37], 0x38);
    assert Run(c, d + [0x35] + [0x36] + [0x37] + [0x38]) == 0x651F_2550;
    RunNext(c, d + [0x35] + [0x36] + [0x37] + [0x38], 0x39);
  }

  lemma CheckFront()
    ensures Run(0xFFFF_FFFF, [0x31] + [0x32] + [0x33] + [0x34]) == 0x641C_1F5C
  {
    var c: bv32 := 0xFFFF_FFFF;
    RunNone(c);
    RunNext(c, [], 0x31);
    assert [] + [0x31 as bv8] == [0x31];
    hide Run;
    assert Run(c, [0x31]) == 0x7C23_1048;
    RunNext(c, [0x31], 0x32);
    assert Run(c, [0x31] + [0x32]) == 0xB0AC_BB32;
    RunNext(c, [0x31] + [0x32], 0x33);
    assert Run(c, [0x31] + [0x32] + [0x33]) == 0x77B7_9C2D;
    RunNext(c, [0x31] + [0x32] + [0x33], 0x34);
  }

  function Down(x: bv32): bv32 {
    x >> 8
  }

  /** The lowest byte. */
  function Lowest(x: bv32): bv8 {
    (x & 0xFF) as bv8
  }

  function Wide(b: bv8): bv32 {
    b as bv32
  }

  /** A checksum's bytes, least significant first, as archives store it. */
  function Stored(x: bv32): seq<bv8> {
    [Lowest(x)] + [Lowest(Down(x))] + [Lowest(Down(Down(x)))] + [Lowest(Down(Down(Down(x))))]
  }

  lemma Opposite(x: bv32)
    ensures Xor(x, Wide(Lowest(Xor(x, 0xFFFF_FFFF)))) == Xor(High(x), 0xFF)
  {
  }

  lemma HighDown(x: bv32)
    ensures Shift8(High(x)) == Down(x)
  {
    HighOut(x);
  }

  /** Feeding the complement of the lowest byte left brings the next one down, over a constant. */
  lemma ResidueStep(x: bv32, k: bv32)
    ensures Shift8(Xor(Xor(x, k), Wide(Lowest(Xor(x, 0xFFFF_FFFF))))) == Xor(Down(x), Shift8(Xor(k, 0xFF)))
  {
    hide Shift8, Xor, High, Down, Lowest, Wide;
    var b := Wide(Lowest(Xor(x, 0xFFFF_FFFF)));
    Opposite(x);
    XorAssoc(x, k, b);
    XorSwap(k, b);
    XorAssoc(x, b, k);
    XorAssoc(High(x), 0xFF, k);
    XorSwap(0xFF, k);
    Shift8Xor(High(x), Xor(k, 0xFF));
    HighDown(x);
  }

  lemma ResidueConstants()
    ensures Shift8(Xor(0, 0xFF)) == 0x2D02_EF8D && Shift8(Xor(0x2D02_EF8D, 0xFF)) == 0xBE26_12FF
    ensures Shift8(Xor(0xBE26_12FF, 0xFF)) == 0x00BE_2612 && Shift8(Xor(0x00BE_2612, 0xFF)) == 0xDEBB_20E3
    ensures Xor(0xDEBB_20E3, 0xFFFF_FFFF) == 0x2144_DF1C
  {
  }

  /** Complementing and moving down may change places as far as the lowest byte goes. */
  lemma OppositeBytes(r: bv32)
    ensures var x := Xor(r, 0xFFFF_FFFF);
            && Lowest(Down(x)) == Lowest(Xor(Down(r), 0xFFFF_FFFF))
            && Lowest(Down(Down(x))) == Lowest(Xor(Down(Down(r)), 0xFFFF_FFFF))
            && Lowest(Down(Down(Down(x)))) == Lowest(Xor(Down(Down(Down(r))), 0xFFFF_FFFF))
  {
  }

  lemma AllDown(r: bv32, k: bv32)
    ensures Down(Down(Down(Down(r)))) == 0 && Xor(r, 0) == r && Xor(0, k) == k
  {
  }

  lemma RunWide(c: bv32, data: seq<bv8>, b: bv8)
    ensures Run(c, data + [b]) == Shift8(Xor(Run(c, data), Wide(b)))
  {
    RunNext(c, data, b);
  }

  /** A checksum register fed its own complement, lowest byte first, ends at a constant. */
  lemma ResidueRun(r: bv32)
    ensures Run(r, Stored(Xor(r, 0xFFFF_FFFF))) == 0xDEBB_20E3
  {
    OppositeBytes(r);
    ResidueConstants();
    AllDown(r, 0xDEBB_20E3);
    RunNone(r);
    hide Run, Xor, Shift8, Down, Lowest, Wide;
    var x := Xor(r, 0xFFFF_FFFF);
    var b0, b1, b2, b3 := Lowest(x), Lowest(Down(x)), Lowest(Down(Down(x))), Lowest(Down(Down(Down(x))));
    assert [] + [b0] == [b0];
    RunWide(r, [], b0);
    RunWide(r, [b0], b1);
    RunWide(r, [b0] + [b1], b2);
    RunWide(r, [b0] + [b1] + [b2], b3);
    ResidueStep(r, 0);
    ResidueStep(Down(r), 0x2D02_EF8D);
    ResidueStep(Down(Down(r)), 0xBE26_12FF);
    ResidueStep(Down(Down(Down(r))), 0x00BE_2612);
  }

  /** Any data followed by its stored checksum has the same checksum. */
  lemma Residue(crc: bv32, data: seq<bv8>)
    ensures Crc(crc, data + Stored(Crc(crc, data))) == 0x2144_DF1C
  {
    hide Run, Xor, Stored;
    var c := Xor(crc, 0xFFFF_FFFF);
    RunConcat(c, data, Stored(Crc(crc, data)));
    ResidueRun(Run(c, data));
    ResidueConstants();
  }
}
