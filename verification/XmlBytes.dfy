/** Byte classes and the tests that the scanners make on one character
    (expat/xmltok.c, expat/xmltok_impl.c:5-81). */
module XmlBytes {

  import opened Endian

  /** The byte types of expat/xmltok_impl.h. */
  datatype ByteType =
    | NonXml | Malform | Lt | Amp | Rsqb | Lead2 | Lead3 | Lead4 | Trail | Cr | Lf
    | Gt | Quot | Apos | Equals | Quest | Excl | Sol | Semi | Num | Lsqb | S
    | Nmstrt | Colon | Hex | Digit | Name | Minus | OtherByte | NonAscii
    | Percnt | Lpar | Rpar | Ast | Plus | Comma | Verbar

  /** An encoding with one byte per ASCII character: the table of byte types and the
      tests on whole multi-byte characters. */
  datatype Encoding = Encoding(
    byteType: Byte -> ByteType,
    isName: seq<Byte> -> bool,
    isNmstrt: seq<Byte> -> bool,
    isInvalid: seq<Byte> -> bool)

  const ASCII_GT: Byte := 0x3E
  const ASCII_RSQB: Byte := 0x5D
  const ASCII_MINUS: Byte := 0x2D
  const CDATA_LSQB: seq<Byte> := [0x43, 0x44, 0x41, 0x54, 0x41, 0x5B]

  /** What one character is to a scanner: cut off by the end of the buffer, rejected,
      accepted with its width, or left to the scanner's own cases. */
  datatype CharRes = Short | Bad | Skip(width: nat) | Own

  predicate IsLead(t: ByteType) { t.Lead2? || t.Lead3? || t.Lead4? }

  function LeadWidth(t: ByteType): (n: nat)
    requires IsLead(t)
    ensures 2 <= n <= 4
  {
    if t.Lead2? then 2 else if t.Lead3? then 3 else 4
  }

  predicate IsSpace(t: ByteType) { t.S? || t.Cr? || t.Lf? }

  /** A multi-byte character at `i`, tested by `ok`. */
  function Multi(s: seq<Byte>, i: nat, n: nat, ok: seq<Byte> -> bool): (r: CharRes)
    requires i < |s| && 0 < n
    ensures r.Skip? ==> r.width == n && i + n <= |s| && ok(s[i..i + n])
  {
    if |s| - i < n then Short else if ok(s[i..i + n]) then Skip(n) else Bad
  }

  /** `CHECK_NAME_CASES`. */
  function NameStep(enc: Encoding, s: seq<Byte>, i: nat): (r: CharRes)
    requires i < |s|
    ensures r.Skip? ==> 1 <= r.width && i + r.width <= |s|
  {
    var t := enc.byteType(s[i]);
    if t.Nmstrt? || t.Hex? || t.Digit? || t.Name? || t.Minus? then Skip(1)
    else if IsLead(t) then Multi(s, i, LeadWidth(t), enc.isName)
    else Own
  }

  /** `CHECK_NMSTRT_CASES`. */
  function NmstrtStep(enc: Encoding, s: seq<Byte>, i: nat): (r: CharRes)
    requires i < |s|
    ensures r.Skip? ==> 1 <= r.width && i + r.width <= |s|
  {
    var t := enc.byteType(s[i]);
    if t.Nmstrt? || t.Hex? then Skip(1)
    else if IsLead(t) then Multi(s, i, LeadWidth(t), enc.isNmstrt)
    else Own
  }

  /** `INVALID_CASES`. */
  function ValidStep(enc: Encoding, s: seq<Byte>, i: nat): (r: CharRes)
    requires i < |s|
    ensures r.Skip? ==> 1 <= r.width && i + r.width <= |s|
  {
    var t := enc.byteType(s[i]);
    if t.NonXml? || t.Malform? || t.Trail? then Bad
    else if IsLead(t) then
      var n := LeadWidth(t);
      if |s| - i < n then Short else if enc.isInvalid(s[i..i + n]) then Bad else Skip(n)
    else Own
  }

  /** A character that fits in the shorter buffer reads the same in the longer one. */
  lemma CharStable(enc: Encoding, s: seq<Byte>, u: seq<Byte>, i: nat)
    requires s <= u && i < |s|
    ensures !NameStep(enc, s, i).Short? ==> NameStep(enc, u, i) == NameStep(enc, s, i)
    ensures !NmstrtStep(enc, s, i).Short? ==> NmstrtStep(enc, u, i) == NmstrtStep(enc, s, i)
    ensures !ValidStep(enc, s, i).Short? ==> ValidStep(enc, u, i) == ValidStep(enc, s, i)
  {
    var t := enc.byteType(s[i]);
    if IsLead(t) && LeadWidth(t) <= |s| - i {
      assert s[i..i + LeadWidth(t)] == u[i..i + LeadWidth(t)];
    }
  }

  /** A character reads the same when the bytes before it are dropped. */
  lemma CharShift(enc: Encoding, s: seq<Byte>, k: nat, v: seq<Byte>, i: nat)
    requires k <= |s| && v == s[k..] && i < |v|
    ensures ValidStep(enc, s, k + i) == ValidStep(enc, v, i)
  {
    var t := enc.byteType(v[i]);
    if IsLead(t) && LeadWidth(t) <= |v| - i {
      assert v[i..i + LeadWidth(t)] == s[k + i..k + i + LeadWidth(t)];
    }
  }
}
