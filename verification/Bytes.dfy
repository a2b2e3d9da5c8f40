/** Octets and fixed-width big-endian integers. */
module Bytes {

  type Byte = b: int | 0 <= b < 0x100
  type U16 = x: int | 0 <= x < 0x1_0000
  type U32 = x: int | 0 <= x < 0x1_0000_0000
  type Octets = seq<Byte>

  /** A Rust `String` is a sequence of UTF-8 octets; everything stored here is ASCII. */
  type Text = seq<Byte>

  const DOT: Byte := 0x2E

  datatype Option<+T> = None | Some(value: T)

  function Be16(v: U16): Octets {
    [v / 0x100, v % 0x100]
  }

  function Be32(v: U32): Octets {
    Be16(v / 0x1_0000) + Be16(v % 0x1_0000)
  }

  function Read16(p: Octets, offset: nat): U16
    requires offset + 2 <= |p|
  {
    p[offset] as int * 0x100 + p[offset + 1] as int
  }

  function Read32(p: Octets, offset: nat): U32
    requires offset + 4 <= |p|
  {
    Read16(p, offset) as int * 0x1_0000 + Read16(p, offset + 2) as int
  }

  function Min(a: nat, b: nat): nat {
    if a < b then a else b
  }

  lemma Assoc(a: Octets, b: Octets, c: Octets)
    ensures (a + b) + c == a + (b + c)
  {
  }

  /** Reading back a big-endian field written at the front. */
  lemma Read16Be16(v: U16, rest: Octets)
    ensures Read16(Be16(v) + rest, 0) == v
  {
  }

  lemma Read32Be32(v: U32, rest: Octets)
    ensures Read32(Be32(v) + rest, 0) == v
  {
    var s := Be32(v) + rest;
    assert s[0] == v / 0x1_0000 / 0x100 && s[1] == v / 0x1_0000 % 0x100;
    assert s[2] == v % 0x1_0000 / 0x100 && s[3] == v % 0x1_0000 % 0x100;
  }

  /** Two octets are always the big-endian form of the number read from them, and so are four. */
  /** Network byte order, octet by octet. */
  lemma BigEndian(v: U16, w: U32)
    ensures Be16(v) == [v / 256, v % 256]
    ensures |Be32(w)| == 4 && Be32(w)[0] == w / 65536 / 256 && Be32(w)[1] == w / 65536 % 256
    ensures Be32(w)[2] == w % 65536 / 256 && Be32(w)[3] == w % 65536 % 256
  {
  }

  /** Dropping a front part of `p` when `t` follows it. */
  lemma DropAppend(p: Octets, t: Octets, k: nat)
    requires k <= |p|
    ensures (p + t)[k..] == p[k..] + t
  {
  }

  lemma Be16Read16(p: Octets, offset: nat)
    requires offset + 2 <= |p|
    ensures Be16(Read16(p, offset)) == p[offset..offset + 2]
  {
    assert p[offset..offset + 2] == [p[offset], p[offset + 1]];
  }

  lemma Be32Read32(p: Octets, offset: nat)
    requires offset + 4 <= |p|
    ensures Be32(Read32(p, offset)) == p[offset..offset + 4]
  {
    Be16Read16(p, offset);
    Be16Read16(p, offset + 2);
    Adjacent(p, offset, offset + 2, offset + 4);
    var v := Read32(p, offset);
    assert v / 0x1_0000 == Read16(p, offset) && v % 0x1_0000 == Read16(p, offset + 2);
  }

  lemma Adjacent(p: Octets, a: nat, b: nat, c: nat)
    requires a <= b <= c <= |p|
    ensures p[a..b] + p[b..c] == p[a..c]
  {
  }
}
