/** UTF-8 and UTF-16 (RFC 3629 sections 3-4, RFC 2781 section 2) as the tokenizer encodes
    and checks them (expat/xmltok.c:79-110, 1155-1227). Shifts and masks on bit fields that
    do not overlap are written with `*`, `/`, `%` and `+`. */
module Unicode {
  import opened Endian

  /** One 16-bit unit of UTF-16. */
  type Unit = u: int | 0 <= u < 0x1_0000

  /** The code points that the tokenizer lets through: no surrogates, and neither U+FFFE
      nor U+FFFF. */
  type Code = c: int | 0 <= c < 0x11_0000 && !(0xD800 <= c < 0xE000) && c != 0xFFFE && c != 0xFFFF

  /** `XmlUtf8Encode` on a code point; it writes nothing for a number that is none. */
  function Encode8(c: Code): (b: seq<Byte>)
    ensures 0 < |b| <= 4
    ensures forall k | 0 <= k < |b| :: 0 < k || 0x80 <= c ==> 0x80 <= b[k]
  {
    if c < 0x80 then [c]
    else if c < 0x800 then [c / 64 + 0xC0, c % 64 + 0x80]
    else if c < 0x1_0000 then [c / 4096 + 0xE0, c / 64 % 64 + 0x80, c % 64 + 0x80]
    else [c / 0x4_0000 + 0xF0, c / 4096 % 64 + 0x80, c / 64 % 64 + 0x80, c % 64 + 0x80]
  }

  /** `XmlUtf16Encode` on a code point. */
  function Encode16(c: Code): (u: seq<Unit>)
    ensures 0 < |u| <= 2
  {
    if c < 0x1_0000 then [c]
    else
      var v: int := c - 0x1_0000;
      [v / 1024 + 0xD800, v % 1024 + 0xDC00]
  }

  /** The length that the byte table gives a character starting with `b`. */
  function Width(b: Byte): (n: nat)
    ensures 1 <= n <= 4
  {
    if 0xC0 <= b < 0xE0 then 2 else if 0xE0 <= b < 0xF0 then 3 else if 0xF0 <= b < 0xF5 then 4 else 1
  }

  /** Not a continuation byte: `(b & 0x80) == 0 || (b & 0xC0) == 0xC0`. */
  predicate NoTail(b: Byte) { b < 0x80 || 0xBF < b }

  /** `UTF8_INVALID2`, `UTF8_INVALID3` and `UTF8_INVALID4`. */
  predicate Invalid2(p: seq<Byte>)
    requires |p| == 2
  {
    p[0] < 0xC2 || p[1] < 0x80 || 0xBF < p[1]
  }

  predicate Invalid3(p: seq<Byte>)
    requires |p| == 3
  {
    p[2] < 0x80 ||
    (if p[0] == 0xEF && p[1] == 0xBF then p[2] > 0xBD else 0xBF < p[2]) ||
    (if p[0] == 0xE0 then p[1] < 0xA0 || 0xBF < p[1]
     else p[1] < 0x80 || (if p[0] == 0xED then p[1] > 0x9F else 0xBF < p[1]))
  }

  predicate Invalid4(p: seq<Byte>)
    requires |p| == 4
  {
    NoTail(p[3]) || NoTail(p[2]) ||
    (if p[0] == 0xF0 then p[1] < 0x90 || 0xBF < p[1]
     else p[1] < 0x80 || (if p[0] == 0xF4 then p[1] > 0x8F else 0xBF < p[1]))
  }

  /** The test that the tokenizer makes on a character of the width that its first byte
      announces; a single byte is let through by the byte table. */
  predicate Invalid(p: seq<Byte>)
    requires |p| > 0 && |p| == Width(p[0])
  {
    match |p|
    case 1 => 0x80 <= p[0]
    case 2 => Invalid2(p)
    case 3 => Invalid3(p)
    case _ => Invalid4(p)
  }

  /** The number in the bit fields of a character of two to four bytes. */
  function Bits(p: seq<Byte>): int
    requires 2 <= |p| <= 4
  {
    var b0: int, b1: int := p[0], p[1];
    if |p| == 2 then b0 % 32 * 64 + b1 % 64
    else
      var b2: int := p[2];
      if |p| == 3 then b0 % 16 * 4096 + b1 % 64 * 64 + b2 % 64
      else
        var b3: int := p[3];
        b0 % 8 * 0x4_0000 + b1 % 64 * 4096 + b2 % 64 * 64 + b3 % 64
  }

  /** A number is the sum of its fields of six bits. */
  lemma SixBits(c: nat)
    ensures c == c / 64 * 64 + c % 64
    ensures c == c / 4096 * 4096 + c / 64 % 64 * 64 + c % 64
    ensures c == c / 0x4_0000 * 0x4_0000 + c / 4096 % 64 * 4096 + c / 64 % 64 * 64 + c % 64
  {
    assert c / 64 / 64 == c / 4096 && c / 4096 / 64 == c / 0x4_0000;
  }

  /** The fields of a sum of fields. */
  lemma FieldsOf(a: nat, b: nat, c: nat, d: nat)
    requires b < 64 && c < 64 && d < 64
    ensures var n := a * 0x4_0000 + b * 4096 + c * 64 + d;
            n / 0x4_0000 == a && n / 4096 % 64 == b && n / 64 % 64 == c && n % 64 == d
  {
    var n := a * 0x4_0000 + b * 4096 + c * 64 + d;
    assert n / 64 == a * 4096 + b * 64 + c && n % 64 == d;
    assert n / 4096 == n / 64 / 64 == a * 64 + b;
  }

  lemma EncodedWidth(c: Code)
    ensures |Encode8(c)| > 0 && |Encode8(c)| == Width(Encode8(c)[0]) && !Invalid(Encode8(c))
  {
    SixBits(c);
  }

  /** The low bits of a byte with a marker above them. */
  lemma Marked(v: nat, marker: nat)
    ensures v < 64 && marker == 0x80 ==> (v + marker) % 64 == v
    ensures v < 32 && marker == 0xC0 ==> (v + marker) % 32 == v
    ensures v < 16 && marker == 0xE0 ==> (v + marker) % 16 == v
    ensures v < 8 && marker == 0xF0 ==> (v + marker) % 8 == v
  {
  }

  /** The bits of an encoded character are its code point. */
  lemma EncodedBits(c: Code)
    requires 0x80 <= c
    ensures |Encode8(c)| >= 2 && Bits(Encode8(c)) == c
  {
    SixBits(c);
    Marked(c % 64, 0x80);
    if c < 0x800 {
      Marked(c / 64, 0xC0);
    } else {
      Marked(c / 64 % 64, 0x80);
      if c < 0x1_0000 {
        Marked(c / 4096, 0xE0);
      } else {
        Marked(c / 4096 % 64, 0x80);
        Marked(c / 0x4_0000, 0xF0);
      }
    }
  }

  lemma Unmarked(b: Byte)
    ensures 0x80 <= b <= 0xBF ==> b % 64 + 0x80 == b
    ensures 0xC0 <= b < 0xE0 ==> b % 32 + 0xC0 == b
    ensures 0xE0 <= b < 0xF0 ==> b % 16 + 0xE0 == b
    ensures 0xF0 <= b < 0xF8 ==> b % 8 + 0xF0 == b
  {
  }

  lemma ValidTwo(p: seq<Byte>)
    requires |p| == 2 && Width(p[0]) == 2 && !Invalid2(p)
    ensures 0x80 <= Bits(p) < 0x800 && Encode8(Bits(p)) == p
  {
    FieldsOf(0, 0, p[0] % 32, p[1] % 64);
  }

  lemma ValidThree(p: seq<Byte>)
    requires |p| == 3 && Width(p[0]) == 3 && !Invalid3(p)
    ensures 0x800 <= Bits(p) < 0x1_0000 && !(0xD800 <= Bits(p) < 0xE000) && Bits(p) < 0xFFFE
    ensures Encode8(Bits(p)) == p
  {
    FieldsOf(0, p[0] % 16, p[1] % 64, p[2] % 64);
    Unmarked(p[0]);
    Unmarked(p[1]);
    Unmarked(p[2]);
  }

  lemma ValidFour(p: seq<Byte>)
    requires |p| == 4 && Width(p[0]) == 4 && !Invalid4(p)
    ensures 0x1_0000 <= Bits(p) < 0x11_0000 && Encode8(Bits(p)) == p
  {
    FieldsOf(p[0] % 8, p[1] % 64, p[2] % 64, p[3] % 64);
    Unmarked(p[0]);
    Unmarked(p[1]);
    Unmarked(p[2]);
    Unmarked(p[3]);
  }

  /** The validity tests accept exactly the byte forms that the encoder produces: no
      overlong forms, no surrogates, nothing above U+10FFFF, no U+FFFE or U+FFFF. */
  lemma ValidExactly(p: seq<Byte>)
    requires |p| > 0 && |p| == Width(p[0])
    ensures !Invalid(p) <==> exists c: Code :: Encode8(c) == p
  {
    if !Invalid(p) {
      var c: Code := 0;
      if |p| == 1 {
        c := p[0];
      } else {
        if |p| == 2 { ValidTwo(p); } else if |p| == 3 { ValidThree(p); } else { ValidFour(p); }
        c := Bits(p);
      }
      assert Encode8(c) == p;
    }
    forall c: Code | Encode8(c) == p
      ensures !Invalid(p)
    {
      EncodedWidth(c);
    }
  }

  // ----- whole texts

  /** The characters of a text, each encoded by `enc`, one behind the other. */
  function Text<T>(enc: Code -> seq<T>, cs: seq<Code>): seq<T> {
    if cs == [] then [] else enc(cs[0]) + Text(enc, cs[1..])
  }

  function Utf8(cs: seq<Code>): seq<Byte> { Text(Encode8, cs) }

  function Utf16(cs: seq<Code>): seq<Unit> { Text(Encode16, cs) }

  lemma {:induction false} TextConcat<T>(enc: Code -> seq<T>, a: seq<Code>, b: seq<Code>)
    ensures Text(enc, a + b) == Text(enc, a) + Text(enc, b)
  {
    if a == [] {
      assert a + b == b;
    } else {
      TextConcat(enc, a[1..], b);
      assert (a + b)[0] == a[0] && (a + b)[1..] == a[1..] + b;
      assert enc(a[0]) + (Text(enc, a[1..]) + Text(enc, b)) == (enc(a[0]) + Text(enc, a[1..])) + Text(enc, b);
    }
  }

  lemma TextCut<T>(enc: Code -> seq<T>, cs: seq<Code>, k: nat)
    requires k <= |cs|
    ensures Text(enc, cs) == Text(enc, cs[..k]) + Text(enc, cs[k..])
  {
    assert cs == cs[..k] + cs[k..];
    TextConcat(enc, cs[..k], cs[k..]);
  }

  /** One character more. */
  lemma TextAt<T>(enc: Code -> seq<T>, cs: seq<Code>, k: nat)
    requires k < |cs|
    ensures Text(enc, cs[..k + 1]) == Text(enc, cs[..k]) + enc(cs[k])
    ensures Text(enc, cs[k..]) == enc(cs[k]) + Text(enc, cs[k + 1..])
    ensures Text(enc, cs) == Text(enc, cs[..k]) + Text(enc, cs[k..])
  {
    TextCut(enc, cs, k);
    assert cs[..k + 1][..k] == cs[..k] && cs[..k + 1][k..] == [cs[k]] && cs[k..][1..] == cs[k + 1..];
    TextCut(enc, cs[..k + 1], k);
    assert Text(enc, [cs[k]]) == enc(cs[k]);
  }

  /** No encoded character starts another one. */
  ghost predicate PrefixFree<T>(enc: Code -> seq<T>) {
    (forall a, b :: enc(a) <= enc(b) ==> a == b) && forall c :: enc(c) != []
  }

  /** A text is determined by its encoded form. */
  lemma {:induction false} TextInjective<T>(enc: Code -> seq<T>, a: seq<Code>, b: seq<Code>)
    requires PrefixFree(enc) && Text(enc, a) == Text(enc, b)
    ensures a == b
  {
    if a != [] && b != [] {
      var u := Text(enc, a);
      var p, q := enc(a[0]), enc(b[0]);
      assert p == u[..|p|] && q == u[..|q|];
      assert if |p| <= |q| then p <= q else q <= p;
      assert Text(enc, a[1..]) == u[|p|..] && Text(enc, b[1..]) == u[|q|..];
      TextInjective(enc, a[1..], b[1..]);
    }
  }

  lemma FirstByte(a: Code, b: Code)
    requires Encode8(a) <= Encode8(b)
    ensures a == b
  {
    EncodedWidth(a);
    EncodedWidth(b);
    assert Encode8(a)[0] == Encode8(b)[0];
    if 0x80 <= a { EncodedBits(a); }
    if 0x80 <= b { EncodedBits(b); }
  }

  lemma FirstUnit(a: Code, b: Code)
    requires Encode16(a) <= Encode16(b)
    ensures a == b
  {
    var p, q := Encode16(a), Encode16(b);
    assert p[0] == q[0];
    assert |p| == 2 <==> 0xD800 <= p[0] < 0xDC00;
    if |p| == 2 {
      assert p[1] == q[1];
      var v: int, w: int := a as int - 0x1_0000, b as int - 0x1_0000;
      assert v == v / 1024 * 1024 + v % 1024 && w == w / 1024 * 1024 + w % 1024;
    }
  }

  lemma Free()
    ensures PrefixFree(Encode8) && PrefixFree(Encode16)
  {
    var e8: Code -> seq<Byte>, e16: Code -> seq<Unit> := Encode8, Encode16;
    forall a, b | e8(a) <= e8(b)
      ensures a == b
    {
      FirstByte(a, b);
    }
    forall a, b | e16(a) <= e16(b)
      ensures a == b
    {
      FirstUnit(a, b);
    }
    assert forall c :: e8(c) == Encode8(c) && e16(c) == Encode16(c);
  }

  /** UTF-8 and UTF-16 lose nothing. */
  lemma Injective(a: seq<Code>, b: seq<Code>)
    ensures Utf8(a) == Utf8(b) ==> a == b
    ensures Utf16(a) == Utf16(b) ==> a == b
  {
    Free();
    if Utf8(a) == Utf8(b) { TextInjective(Encode8, a, b); }
    if Utf16(a) == Utf16(b) { TextInjective(Encode16, a, b); }
  }
}
