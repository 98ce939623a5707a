/** Big-endian numbers in byte strings, as the struct formats `>H`, `>I` and `>q` lay them out. */
module BigEndian {
  import opened Storage

  function Pow256(n: nat): nat {
    if n == 0 then 1 else 256 * Pow256(n - 1)
  }

  /** The `width` low-order bytes of `n`, most significant first. */
  function Pack(n: nat, width: nat): (bs: seq<byte>)
    ensures |bs| == width
  {
    if width == 0 then [] else Pack(n / 256, width - 1) + [n % 256]
  }

  function Unpack(bs: seq<byte>): nat {
    if bs == [] then 0 else 256 * Unpack(bs[..|bs| - 1]) + bs[|bs| - 1]
  }

  lemma {:induction false} PackUnpack(n: nat, width: nat)
    requires n < Pow256(width)
    ensures Unpack(Pack(n, width)) == n
    ensures width > 0 ==> Pow256(width - 1) > 0 && Pack(n, width)[0] == n / Pow256(width - 1) && Pack(n, width)[width - 1] == n % 256
    decreases width
  {
    if width > 0 {
      PackUnpack(n / 256, width - 1);
      assert Pack(n, width)[..width - 1] == Pack(n / 256, width - 1);
      if width > 1 {
        DivTwice(n, Pow256(width - 2));
      }
    }
  }

  /** The digits of the number in base 256, the most significant one first. */
  lemma {:induction false} PackDigit(n: nat, width: nat, i: nat)
    requires i < width
    ensures Pow256(width - 1 - i) > 0 && Pack(n, width)[i] == n / Pow256(width - 1 - i) % 256
    ensures Pow256(0) == 1 && Pow256(width) == 256 * Pow256(width - 1)
    decreases width
  {
    if i < width - 1 {
      PackDigit(n / 256, width - 1, i);
      DivTwice(n, Pow256(width - 2 - i));
    }
  }

  lemma DivTwice(n: nat, b: nat)
    requires b > 0
    ensures n / 256 / b == n / (256 * b)
  {
    var q := n / 256;
    var t, u, r := q / b, q % b, n % 256;
    assert q == b * t + u;
    Scaled(b, t);
    assert n == 256 * b * t + (256 * u + r);
    Quotient(n, 256 * b, t, 256 * u + r);
  }

  lemma Scaled(b: nat, t: nat)
    ensures 256 * (b * t) == 256 * b * t
  {
  }

  lemma Quotient(n: nat, d: nat, t: nat, r: nat)
    requires n == d * t + r && r < d
    ensures n / d == t
  {
    var q := n / d;
    assert n == d * q + n % d;
    if q < t {
      Apart(d, q, t);
    } else if q > t {
      Apart(d, t, q);
    }
  }

  lemma {:induction false} Apart(d: nat, a: nat, b: nat)
    requires a < b
    ensures d * a + d <= d * b
    decreases b
  {
    assert d * b == d * (b - 1) + d;
    if a + 1 < b {
      Apart(d, a, b - 1);
    }
  }

  /** The four widths in use, byte by byte. */
  lemma PackIs(n: nat)
    ensures Pack(n, 1) == [n % 0x100]
    ensures Pack(n, 2) == [n / 0x100 % 0x100, n % 0x100]
    ensures Pack(n, 4) == [n / 0x100_0000 % 0x100, n / 0x1_0000 % 0x100, n / 0x100 % 0x100, n % 0x100]
    ensures Pack(n, 8) == [n / 0x100_0000_0000_0000 % 0x100, n / 0x1_0000_0000_0000 % 0x100, n / 0x100_0000_0000 % 0x100,
                           n / 0x1_0000_0000 % 0x100, n / 0x100_0000 % 0x100, n / 0x1_0000 % 0x100, n / 0x100 % 0x100, n % 0x100]
  {
    PackStep(n, 0);
    PackStep(n / 0x100, 0);
    PackStep(n, 1);
    PackFour(n);
    PackEight(n);
  }

  lemma PackStep(n: nat, width: nat)
    ensures Pack(n, 0) == [] && Pack(n, width + 1) == Pack(n / 0x100, width) + [n % 0x100]
  {
  }

  lemma PackFour(n: nat)
    ensures Pack(n, 4) == [n / 0x100_0000 % 0x100, n / 0x1_0000 % 0x100, n / 0x100 % 0x100, n % 0x100]
  {
    PackStep(n, 3);
    PackStep(n / 0x100, 2);
    PackStep(n / 0x1_0000, 1);
    PackStep(n / 0x100_0000, 0);
    hide Pack;
    assert n / 0x100 / 0x100 == n / 0x1_0000 && n / 0x1_0000 / 0x100 == n / 0x100_0000;
  }

  lemma PackEight(n: nat)
    ensures |Pack(n, 8)| == 8 && Pack(n, 8) == [n / 0x100_0000_0000_0000 % 0x100, n / 0x1_0000_0000_0000 % 0x100, n / 0x100_0000_0000 % 0x100,
                           n / 0x1_0000_0000 % 0x100, n / 0x100_0000 % 0x100, n / 0x1_0000 % 0x100, n / 0x100 % 0x100, n % 0x100]
  {
    PackHalves(n);
    PackFour(n);
    PackFour(n / 0x1_0000_0000);
    hide Pack;
    var m := n / 0x1_0000_0000;
    assert m / 0x100_0000 == n / 0x100_0000_0000_0000;
    assert m / 0x1_0000 == n / 0x1_0000_0000_0000;
    assert m / 0x100 == n / 0x100_0000_0000;
  }

  lemma PackHalves(n: nat)
    ensures Pack(n, 8) == Pack(n / 0x1_0000_0000, 4) + Pack(n, 4)
  {
    PackStep(n, 7);
    PackStep(n / 0x100, 6);
    PackStep(n / 0x1_0000, 5);
    PackStep(n / 0x100_0000, 4);
    PackFour(n);
    hide Pack;
    assert n / 0x100 / 0x100 == n / 0x1_0000 && n / 0x1_0000 / 0x100 == n / 0x100_0000 && n / 0x100_0000 / 0x100 == n / 0x1_0000_0000;
  }

  lemma {:induction false} UnpackPack(bs: seq<byte>)
    ensures Unpack(bs) < Pow256(|bs|) && Pack(Unpack(bs), |bs|) == bs
    decreases |bs|
  {
    if bs != [] {
      UnpackPack(bs[..|bs| - 1]);
    }
  }

  lemma Widths()
    ensures Pow256(2) == 0x1_0000 && Pow256(4) == 0x1_0000_0000 && Pow256(8) == 0x1_0000_0000_0000_0000
  {
    assert Pow256(2) == 0x1_0000;
    assert Pow256(4) == 0x1_0000_0000;
    assert Pow256(6) == 0x1_0000_0000_0000;
  }

  predicate Int64(k: int) {
    -0x8000_0000_0000_0000 <= k < 0x8000_0000_0000_0000
  }

  /** Two's complement in eight bytes. */
  function PackInt(k: int): (bs: seq<byte>)
    requires Int64(k)
  {
    Pack(if k < 0 then k + 0x1_0000_0000_0000_0000 else k, 8)
  }

  function UnpackInt(bs: seq<byte>): int {
    var n := Unpack(bs);
    if n < 0x8000_0000_0000_0000 then n else n - 0x1_0000_0000_0000_0000
  }

  /** A 64-bit integer is stored by the digits of itself, or of itself plus 2^64 if it is negative; the first byte shows the sign. */
  lemma PackIntIs(k: int)
    requires -0x8000_0000_0000_0000 <= k < 0x8000_0000_0000_0000
    ensures Int64(k)
    ensures var u: nat := if k < 0 then k + 0x1_0000_0000_0000_0000 else k;
      PackInt(k) == [u / 0x100_0000_0000_0000 % 0x100, u / 0x1_0000_0000_0000 % 0x100, u / 0x100_0000_0000 % 0x100,
                     u / 0x1_0000_0000 % 0x100, u / 0x100_0000 % 0x100, u / 0x1_0000 % 0x100, u / 0x100 % 0x100, u % 0x100]
    ensures PackInt(k)[0] >= 0x80 <==> k < 0
  {
    hide Pack;
    var u: nat := if k < 0 then k + 0x1_0000_0000_0000_0000 else k;
    PackEight(u);
    SignByte(u);
  }

  lemma SignByte(u: nat)
    requires u < 0x1_0000_0000_0000_0000
    ensures u / 0x100_0000_0000_0000 % 0x100 >= 0x80 <==> u >= 0x8000_0000_0000_0000
  {
    assert u / 0x100_0000_0000_0000 < 0x100;
  }

  lemma PackUnpackInt(k: int)
    requires Int64(k)
    ensures UnpackInt(PackInt(k)) == k
  {
    Widths();
    PackUnpack(if k < 0 then k + 0x1_0000_0000_0000_0000 else k, 8);
  }

  lemma UnpackPackInt(bs: seq<byte>)
    requires |bs| == 8
    ensures Int64(UnpackInt(bs)) && PackInt(UnpackInt(bs)) == bs
  {
    Widths();
    UnpackPack(bs);
  }
}

/** UTF-8 as in section 3 of RFC 3629: shortest forms only, no surrogates, nothing above U+10FFFF. */
module Utf8 {
  import opened Storage

  function EncodeChar(c: char): (bs: seq<byte>)
    ensures 1 <= |bs| <= 4
  {
    var n := c as int;
    if n < 0x80 then [n]
    else if n < 0x800 then [0xC0 + n / 64, 0x80 + n % 64]
    else if n < 0x1_0000 then [0xE0 + n / 4096, 0x80 + n / 64 % 64, 0x80 + n % 64]
    else [0xF0 + n / 262144, 0x80 + n / 4096 % 64, 0x80 + n / 64 % 64, 0x80 + n % 64]
  }

  function Encode(s: string): seq<byte> {
    if s == [] then [] else EncodeChar(s[0]) + Encode(s[1..])
  }

  /** The bit patterns: one byte for seven bits, and six bits in each byte behind a leading one. */
  lemma CharLayout(w: nat, x: nat, y: nat, z: nat)
    requires w <= 4 && x < 64 && y < 64 && z < 64
    ensures y < 2 ==> EncodeChar((y * 64 + z) as char) == [y * 64 + z]
    ensures 2 <= y < 32 ==> EncodeChar((y * 64 + z) as char) == [0xC0 + y, 0x80 + z]
    ensures 32 <= x * 64 + y < 1024 && !(864 <= x * 64 + y < 896) ==>
      EncodeChar((x * 4096 + y * 64 + z) as char) == [0xE0 + x, 0x80 + y, 0x80 + z]
    ensures 16 <= w * 64 + x < 272 ==>
      EncodeChar((w * 262144 + x * 4096 + y * 64 + z) as char) == [0xF0 + w, 0x80 + x, 0x80 + y, 0x80 + z]
  {
    if 32 <= x * 64 + y < 1024 && !(864 <= x * 64 + y < 896) {
      ThreeLayout(x, y, z);
    }
    if 16 <= w * 64 + x < 272 {
      FourLayout(w, x, y, z);
    }
  }

  lemma ThreeLayout(x: nat, y: nat, z: nat)
    requires y < 64 && z < 64 && 32 <= x * 64 + y < 1024 && !(864 <= x * 64 + y < 896)
    ensures EncodeChar((x * 4096 + y * 64 + z) as char) == [0xE0 + x, 0x80 + y, 0x80 + z]
  {
    Composed(x, y, z);
  }

  lemma FourLayout(w: nat, x: nat, y: nat, z: nat)
    requires w <= 4 && x < 64 && y < 64 && z < 64 && 16 <= w * 64 + x < 272
    ensures EncodeChar((w * 262144 + x * 4096 + y * 64 + z) as char) == [0xF0 + w, 0x80 + x, 0x80 + y, 0x80 + z]
  {
    Composed(w * 64 + x, y, z);
    assert (w * 64 + x) / 64 == w && (w * 64 + x) % 64 == x;
    var n := w * 262144 + x * 4096 + y * 64 + z;
    assert n / 262144 == n / 4096 / 64;
  }

  /** The bytes of a text are those of its characters, in order. */
  lemma {:induction false} EncodeConcat(a: string, b: string, c: char)
    ensures Encode([]) == [] && Encode([c]) == EncodeChar(c) && Encode(a + b) == Encode(a) + Encode(b)
  {
    if a == [] {
      assert a + b == b;
    } else {
      assert (a + b)[1..] == a[1..] + b;
      EncodeConcat(a[1..], b, c);
    }
  }

  /** One character read from the front, with the number of bytes it takes. */
  datatype Step = Step(c: char, size: nat)

  predicate Tail(b: byte) {
    0x80 <= b < 0xC0
  }

  function Two(b0: byte, b1: byte): Option<char> {
    if 0xC2 <= b0 <= 0xDF && Tail(b1) then Some(((b0 - 0xC0) * 64 + (b1 - 0x80)) as char) else None
  }

  function Three(b0: byte, b1: byte, b2: byte): Option<char> {
    if Tail(b1) && Tail(b2)
       && (b0 == 0xE0 ==> 0xA0 <= b1) && (b0 == 0xED ==> b1 < 0xA0) && 0xE0 <= b0 <= 0xEF
    then Some(((b0 - 0xE0) * 4096 + (b1 - 0x80) * 64 + (b2 - 0x80)) as char) else None
  }

  function Four(b0: byte, b1: byte, b2: byte, b3: byte): Option<char> {
    if Tail(b1) && Tail(b2) && Tail(b3)
       && (b0 == 0xF0 ==> 0x90 <= b1) && (b0 == 0xF4 ==> b1 < 0x90) && 0xF0 <= b0 <= 0xF4
    then Some(((b0 - 0xF0) * 262144 + (b1 - 0x80) * 4096 + (b2 - 0x80) * 64 + (b3 - 0x80)) as char) else None
  }

  function DecodeChar(bs: seq<byte>): Option<Step>
    requires bs != []
    ensures DecodeChar(bs).Some? ==> 1 <= DecodeChar(bs).value.size <= |bs|
  {
    if bs[0] < 0x80 then Some(Step(bs[0] as char, 1))
    else if |bs| >= 2 && Two(bs[0], bs[1]).Some? then Some(Step(Two(bs[0], bs[1]).value, 2))
    else if |bs| >= 3 && Three(bs[0], bs[1], bs[2]).Some? then Some(Step(Three(bs[0], bs[1], bs[2]).value, 3))
    else if |bs| >= 4 && Four(bs[0], bs[1], bs[2], bs[3]).Some? then Some(Step(Four(bs[0], bs[1], bs[2], bs[3]).value, 4))
    else None
  }

  function Decode(bs: seq<byte>): Option<string> {
    if bs == [] then Some([])
    else match DecodeChar(bs)
      case None => None
      case Some(Step(c, n)) =>
        match Decode(bs[n..])
        case None => None
        case Some(rest) => Some([c] + rest)
  }

  /** Six-bit groups of a number. */
  lemma Groups(n: nat)
    ensures n == n / 64 * 64 + n % 64
    ensures n / 64 == n / 4096 * 64 + n / 64 % 64
    ensures n / 4096 == n / 262144 * 64 + n / 4096 % 64
  {
  }

  lemma TwoRoundTrip(c: char)
    requires 0x80 <= c as int < 0x800
    ensures var bs := EncodeChar(c); Two(bs[0], bs[1]) == Some(c)
  {
  }

  lemma ThreeRoundTrip(c: char)
    requires 0x800 <= c as int < 0x1_0000
    ensures var bs := EncodeChar(c); Three(bs[0], bs[1], bs[2]) == Some(c)
  {
    Groups(c as int);
  }

  lemma FourRoundTrip(c: char)
    requires 0x1_0000 <= c as int
    ensures var bs := EncodeChar(c); Four(bs[0], bs[1], bs[2], bs[3]) == Some(c)
  {
    Groups(c as int);
  }

  /** The first byte alone tells how many bytes follow. */
  lemma FirstByte(c: char)
    ensures var b := EncodeChar(c)[0];
      && (b < 0x80 <==> |EncodeChar(c)| == 1) && (0xC0 <= b < 0xE0 <==> |EncodeChar(c)| == 2)
      && (0xE0 <= b < 0xF0 <==> |EncodeChar(c)| == 3) && (0xF0 <= b <==> |EncodeChar(c)| == 4)
  {
  }

  lemma CharRoundTrip(c: char, rest: seq<byte>)
    ensures DecodeChar(EncodeChar(c) + rest) == Some(Step(c, |EncodeChar(c)|))
  {
    var n, e := c as int, EncodeChar(c);
    FirstByte(c);
    if n < 0x80 {
      assert e == [n];
    } else if n < 0x800 {
      TwoRoundTrip(c);
      hide EncodeChar;
    } else if n < 0x1_0000 {
      ThreeRoundTrip(c);
      hide EncodeChar;
    } else {
      FourRoundTrip(c);
      hide EncodeChar;
    }
  }

  /** Every text is read back from its bytes. */
  lemma {:induction false} EncodeDecode(s: string)
    ensures Decode(Encode(s)) == Some(s)
  {
    if s != [] {
      CharRoundTrip(s[0], Encode(s[1..]));
      assert Encode(s)[|EncodeChar(s[0])|..] == Encode(s[1..]);
      EncodeDecode(s[1..]);
      assert s == [s[0]] + s[1..];
    }
  }

  /** Digits in base 64 can be read off again. */
  lemma Composed(x: nat, y: nat, z: nat)
    requires y < 64 && z < 64
    ensures var n := x * 4096 + y * 64 + z; n / 4096 == x && n / 64 % 64 == y && n % 64 == z
  {
    assert (x * 4096 + y * 64 + z) / 64 == x * 64 + y;
  }

  lemma TwoBytes(b0: byte, b1: byte)
    requires Two(b0, b1).Some?
    ensures EncodeChar(Two(b0, b1).value) == [b0, b1]
  {
  }

  lemma ThreeBytes(b0: byte, b1: byte, b2: byte)
    requires Three(b0, b1, b2).Some?
    ensures EncodeChar(Three(b0, b1, b2).value) == [b0, b1, b2]
  {
    Composed(b0 - 0xE0, b1 - 0x80, b2 - 0x80);
  }

  lemma FourBytes(b0: byte, b1: byte, b2: byte, b3: byte)
    requires Four(b0, b1, b2, b3).Some?
    ensures EncodeChar(Four(b0, b1, b2, b3).value) == [b0, b1, b2, b3]
  {
    Composed((b0 - 0xF0) * 64 + (b1 - 0x80), b2 - 0x80, b3 - 0x80);
    Groups(Four(b0, b1, b2, b3).value as int);
  }

  lemma CharBytes(bs: seq<byte>)
    requires bs != [] && DecodeChar(bs).Some?
    ensures var Step(c, n) := DecodeChar(bs).value; EncodeChar(c) == bs[..n]
  {
    var n := DecodeChar(bs).value.size;
    if n == 2 {
      TwoBytes(bs[0], bs[1]);
    } else if n == 3 {
      ThreeBytes(bs[0], bs[1], bs[2]);
    } else if n == 4 {
      FourBytes(bs[0], bs[1], bs[2], bs[3]);
    }
    hide EncodeChar, Two, Three, Four;
  }

  /** Only the bytes of a text are ever accepted. */
  lemma {:induction false} DecodeEncode(bs: seq<byte>)
    requires Decode(bs).Some?
    ensures Encode(Decode(bs).value) == bs
    decreases |bs|
  {
    hide EncodeChar, DecodeChar;
    if bs != [] {
      CharBytes(bs);
      var Step(c, n) := DecodeChar(bs).value;
      DecodeEncode(bs[n..]);
      assert bs == bs[..n] + bs[n..];
      assert Decode(bs).value[1..] == Decode(bs[n..]).value;
    }
  }
}
