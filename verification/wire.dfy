/**
 * Big-endian two's-complement integers as java.io.DataInput's readInt and
 * readLong define them, and the 12-byte (key, offset) group layout that
 * reader.java parses.
 */
module Wire {
  import opened Common

  function Pow256(n: nat): (r: nat)
    ensures r > 0
  {
    if n == 0 then 1 else 256 * Pow256(n - 1)
  }

  lemma Pow256Facts()
    ensures Pow256(4) == 0x1_0000_0000
    ensures Pow256(8) == 0x1_0000_0000_0000_0000
  {
    assert Pow256(1) == 0x100;
    assert Pow256(2) == 0x1_0000;
    assert Pow256(3) == 0x100_0000;
    assert Pow256(4) == 0x1_0000_0000;
    assert Pow256(5) == 0x100_0000_0000;
    assert Pow256(6) == 0x1_0000_0000_0000;
    assert Pow256(7) == 0x100_0000_0000_0000;
  }

  /** The unsigned value of `s`, most significant byte first. */
  function Unsigned(s: seq<Byte>): (r: nat)
    ensures r < Pow256(|s|)
  {
    if s == [] then 0 else Unsigned(s[..|s| - 1]) * 256 + s[|s| - 1]
  }

  /** The `width` bytes of `x`, most significant first. */
  function EncodeUnsigned(x: nat, width: nat): (r: seq<Byte>)
    requires x < Pow256(width)
    ensures |r| == width
  {
    if width == 0 then [] else EncodeUnsigned(x / 256, width - 1) + [x % 256]
  }

  lemma {:induction false} UnsignedOfEncode(x: nat, width: nat)
    requires x < Pow256(width)
    ensures Unsigned(EncodeUnsigned(x, width)) == x
    decreases width
  {
    if width > 0 {
      var s := EncodeUnsigned(x, width);
      assert s[..|s| - 1] == EncodeUnsigned(x / 256, width - 1);
      UnsignedOfEncode(x / 256, width - 1);
    }
  }

  lemma {:induction false} EncodeOfUnsigned(s: seq<Byte>)
    ensures EncodeUnsigned(Unsigned(s), |s|) == s
    decreases |s|
  {
    if s != [] {
      var p := s[..|s| - 1];
      var u := Unsigned(s);
      assert u / 256 == Unsigned(p) && u % 256 == s[|s| - 1];
      EncodeOfUnsigned(p);
      assert s == p + [s[|s| - 1]];
    }
  }

  /** The first byte of `s` is worth 256^(|s| - 1) times its value. */
  lemma ShiftByte(a: int, w: int)
    ensures (a * w) * 256 == a * (256 * w)
  {
  }

  lemma {:induction false} UnsignedHead(s: seq<Byte>)
    requires |s| > 0
    ensures Unsigned(s) == (s[0] as int) * Pow256(|s| - 1) + Unsigned(s[1..])
    decreases |s|
  {
    if |s| == 1 {
      assert s[..0] == [] && s[1..] == [];
    } else {
      var p := s[..|s| - 1];
      var a, b := s[0] as int, s[|s| - 1] as int;
      var w := Pow256(|s| - 2);
      var t := Unsigned(p[1..]);
      UnsignedHead(p);
      assert Unsigned(p) == a * w + t;
      assert s[1..][..|s| - 2] == p[1..];
      assert Unsigned(s[1..]) == t * 256 + b;
      assert Pow256(|s| - 1) == 256 * w;
      ShiftByte(a, w);
    }
  }

  /** readInt: four bytes, big-endian, two's complement; negative exactly when the top bit is set. */
  function ReadInt(s: seq<Byte>): (r: Int32)
    requires |s| == 4
    ensures r < 0 <==> s[0] >= 128
  {
    Pow256Facts();
    UnsignedHead(s);
    var u := Unsigned(s);
    if u >= 0x8000_0000 then u - 0x1_0000_0000 else u
  }

  /** readLong: eight bytes, big-endian, two's complement; negative exactly when the top bit is set. */
  function ReadLong(s: seq<Byte>): (r: Int64)
    requires |s| == 8
    ensures r < 0 <==> s[0] >= 128
  {
    Pow256Facts();
    UnsignedHead(s);
    var u := Unsigned(s);
    if u >= 0x8000_0000_0000_0000 then u - 0x1_0000_0000_0000_0000 else u
  }

  /** writeInt: the four bytes readInt turns back into `x`. */
  function EncodeInt32(x: Int32): (r: seq<Byte>)
    ensures |r| == 4 && ReadInt(r) == x
  {
    Pow256Facts();
    var u := if x < 0 then x + 0x1_0000_0000 else x;
    UnsignedOfEncode(u, 4);
    EncodeUnsigned(u, 4)
  }

  /** writeLong: the eight bytes readLong turns back into `x`. */
  function EncodeInt64(x: Int64): (r: seq<Byte>)
    ensures |r| == 8 && ReadLong(r) == x
  {
    Pow256Facts();
    var u := if x < 0 then x + 0x1_0000_0000_0000_0000 else x;
    UnsignedOfEncode(u, 8);
    EncodeUnsigned(u, 8)
  }

  /** Every four-byte string is the encoding of the int it reads as. */
  lemma EncodeOfReadInt(s: seq<Byte>)
    requires |s| == 4
    ensures EncodeInt32(ReadInt(s)) == s
  {
    Pow256Facts();
    EncodeOfUnsigned(s);
  }

  /** Every eight-byte string is the encoding of the long it reads as. */
  lemma EncodeOfReadLong(s: seq<Byte>)
    requires |s| == 8
    ensures EncodeInt64(ReadLong(s)) == s
  {
    Pow256Facts();
    EncodeOfUnsigned(s);
  }

  /**
   * readInt spelled out as DataInput documents it: the first byte is signed,
   * the other three are unsigned, each worth 256 times the next.
   */
  lemma ReadIntBytes(s: seq<Byte>)
    requires |s| == 4
    ensures ReadInt(s) == (if s[0] >= 128 then (s[0] as int) - 256 else s[0] as int) * 0x100_0000
                          + (s[1] as int) * 0x1_0000 + (s[2] as int) * 0x100 + s[3]
  {
    assert s[..3][..2][..1][..0] == [];
    assert Unsigned(s[..1]) == s[0];
    assert Unsigned(s[..2]) == (s[0] as int) * 0x100 + s[1] by { assert s[..2][..1] == s[..1]; }
    assert Unsigned(s[..3]) == (s[0] as int) * 0x1_0000 + (s[1] as int) * 0x100 + s[2] by { assert s[..3][..2] == s[..2]; }
    assert s[..4] == s;
  }

  /**
   * readLong spelled out: the first byte is signed, the other seven are
   * unsigned, each worth 256 times the next.
   */
  lemma ReadLongBytes(s: seq<Byte>)
    requires |s| == 8
    ensures ReadLong(s) == (if s[0] >= 128 then (s[0] as int) - 256 else s[0] as int) * 0x100_0000_0000_0000
                           + (s[1] as int) * 0x1_0000_0000_0000 + (s[2] as int) * 0x100_0000_0000
                           + (s[3] as int) * 0x1_0000_0000 + (s[4] as int) * 0x100_0000
                           + (s[5] as int) * 0x1_0000 + (s[6] as int) * 0x100 + s[7]
  {
    assert s[..1][..0] == [];
    assert Unsigned(s[..1]) == s[0];
    assert Unsigned(s[..2]) == (s[0] as int) * 0x100 + s[1] by { assert s[..2][..1] == s[..1]; }
    assert Unsigned(s[..3]) == Unsigned(s[..2]) * 0x100 + s[2] by { assert s[..3][..2] == s[..2]; }
    assert Unsigned(s[..4]) == Unsigned(s[..3]) * 0x100 + s[3] by { assert s[..4][..3] == s[..3]; }
    assert Unsigned(s[..5]) == Unsigned(s[..4]) * 0x100 + s[4] by { assert s[..5][..4] == s[..4]; }
    assert Unsigned(s[..6]) == Unsigned(s[..5]) * 0x100 + s[5] by { assert s[..6][..5] == s[..5]; }
    assert Unsigned(s[..7]) == Unsigned(s[..6]) * 0x100 + s[6] by { assert s[..7][..6] == s[..6]; }
    assert Unsigned(s) == Unsigned(s[..7]) * 0x100 + s[7];
  }

  /** Width in bytes of one (key, offset) group. */
  const EntrySize: nat := 12

  /** A group: the key as readInt, then the offset as readLong. */
  function EncodeEntry(e: IndexRecord): (r: seq<Byte>)
    ensures |r| == EntrySize
  {
    EncodeInt32(e.key) + EncodeInt64(e.value)
  }

  /**
   * A group read back: readInt of the first four bytes, readLong of the next
   * eight. The key or offset is negative exactly when its first byte has the
   * top bit set.
   */
  function DecodeEntry(s: seq<Byte>): (r: IndexRecord)
    requires |s| >= EntrySize
    ensures r.key < 0 <==> s[0] >= 128
    ensures r.value < 0 <==> s[4] >= 128
  {
    IndexRecord(ReadInt(s[..4]), ReadLong(s[4..12]))
  }

  /** Every 12 bytes are the group of the entry they read as. */
  lemma EncodeOfDecodeEntry(s: seq<Byte>)
    requires |s| >= EntrySize
    ensures EncodeEntry(DecodeEntry(s)) == s[..EntrySize]
  {
    EncodeOfReadInt(s[..4]);
    EncodeOfReadLong(s[4..12]);
    assert s[..EntrySize] == s[..4] + s[4..12];
  }

  /** A group decodes to the entry it encodes, whatever follows it. */
  lemma DecodeEncodeEntry(e: IndexRecord, rest: seq<Byte>)
    ensures DecodeEntry(EncodeEntry(e) + rest) == e
  {
    var s := EncodeEntry(e) + rest;
    assert s[..4] == EncodeInt32(e.key);
    assert s[4..12] == EncodeInt64(e.value);
  }

  /** The groups of a list of entries, one after the other, in list order. */
  function EncodeEntries(rs: seq<IndexRecord>): (r: seq<Byte>)
    ensures |r| == EntrySize * |rs|
  {
    if rs == [] then [] else EncodeEntry(rs[0]) + EncodeEntries(rs[1..])
  }
}
