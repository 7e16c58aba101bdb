/** Element content as a tree: its text, and the handler calls that it must bring about.
    Nothing here speaks of the tokenizer (expat/xmltok_impl.c, expat/asciitab.h). */
module XmlPrint {
  import opened Wrappers
  import opened Endian
  import opened XmlBytes
  import opened XmlContent

  // ----- characters

  /** What a table of byte types says of a byte: one type for each byte that is markup. */
  predicate Agrees(b: Byte, t: ByteType) {
    && (t.Lt? <==> b == 0x3C) && (t.Gt? <==> b == 0x3E) && (t.Amp? <==> b == 0x26)
    && (t.Sol? <==> b == 0x2F) && (t.Excl? <==> b == 0x21) && (t.Quest? <==> b == 0x3F)
    && (t.Lsqb? <==> b == 0x5B) && (t.Rsqb? <==> b == 0x5D) && (t.Minus? <==> b == 0x2D)
    && (t.Num? <==> b == 0x23) && (t.Semi? <==> b == 0x3B) && (t.Equals? <==> b == 0x3D)
    && (t.Quot? <==> b == 0x22) && (t.Apos? <==> b == 0x27)
    && (t.Cr? <==> b == 0x0D) && (t.Lf? <==> b == 0x0A) && (t.S? <==> b == 0x20 || b == 0x09)
    && (t.Digit? <==> 0x30 <= b <= 0x39) && (t.Hex? <==> 0x41 <= b <= 0x46 || 0x61 <= b <= 0x66)
    && (0x67 <= b <= 0x7A ==> t.Nmstrt?)
    && (b == 0x3A ==> t.Colon? || t.Nmstrt?) && (t.Colon? ==> b == 0x3A)
  }

  /** An encoding that agrees with ASCII; what may start a name may be in one. */
  ghost predicate Ascii(enc: Encoding) {
    && (forall b {:trigger Agrees(b, enc.byteType(b))} :: Agrees(b, enc.byteType(b)))
    && (forall ch :: enc.isNmstrt(ch) ==> enc.isName(ch))
  }

  function Width(t: ByteType): nat {
    match t
    case Lead2 => 2
    case Lead3 => 3
    case Lead4 => 4
    case _ => 1
  }

  predicate OneChar(enc: Encoding, ch: seq<Byte>) { ch != [] && |ch| == Width(enc.byteType(ch[0])) }

  predicate Legal(enc: Encoding, ch: seq<Byte>) {
    OneChar(enc, ch) &&
    var t := enc.byteType(ch[0]);
    !t.NonXml? && !t.Malform? && !t.Trail? && (|ch| > 1 ==> !enc.isInvalid(ch))
  }

  predicate StartsName(enc: Encoding, ch: seq<Byte>) {
    OneChar(enc, ch) &&
    var t := enc.byteType(ch[0]);
    if |ch| > 1 then enc.isNmstrt(ch) else t.Nmstrt? || t.Hex?
  }

  predicate InName(enc: Encoding, ch: seq<Byte>) {
    OneChar(enc, ch) &&
    var t := enc.byteType(ch[0]);
    if |ch| > 1 then enc.isName(ch) else t.Nmstrt? || t.Hex? || t.Digit? || t.Name? || t.Minus?
  }

  predicate White(b: Byte) { b == 0x20 || b == 0x09 || b == 0x0D || b == 0x0A }

  predicate AllWhite(s: seq<Byte>) { forall k | 0 <= k < |s| :: White(s[k]) }

  predicate Starts(s: seq<Byte>, x: seq<Byte>) { |x| <= |s| && s[..|x|] == x }

  // ----- names and references

  predicate NcName(enc: Encoding, cs: seq<seq<Byte>>) {
    cs != [] && StartsName(enc, cs[0]) && forall k | 1 <= k < |cs| :: InName(enc, cs[k])
  }

  /** A name by its characters, with a prefix or without. */
  datatype Name = Name(prefix: Option<seq<seq<Byte>>>, local: seq<seq<Byte>>)

  predicate IsName(enc: Encoding, n: Name) {
    NcName(enc, n.local) && (n.prefix.Some? ==> NcName(enc, n.prefix.value))
  }

  function PrintName(n: Name): seq<Byte> {
    (if n.prefix.Some? then Concat(n.prefix.value) + [0x3A] else []) + Concat(n.local)
  }

  /** A reference to an entity or, by digits of base 10 or 16, to a character. */
  datatype Ref = ByName(name: seq<seq<Byte>>) | ByDec(digits: seq<Byte>) | ByHex(digits: seq<Byte>)

  predicate IsDec(b: Byte) { 0x30 <= b <= 0x39 }

  predicate IsHex(b: Byte) { IsDec(b) || 0x41 <= b <= 0x46 || 0x61 <= b <= 0x66 }

  predicate IsRef(enc: Encoding, r: Ref) {
    match r
    case ByName(name) => NcName(enc, name)
    case ByDec(digits) => digits != [] && forall k | 0 <= k < |digits| :: IsDec(digits[k])
    case ByHex(digits) => digits != [] && forall k | 0 <= k < |digits| :: IsHex(digits[k])
  }

  /** Behind the ampersand. */
  function RefBody(r: Ref): seq<Byte> {
    match r
    case ByName(name) => Concat(name)
    case ByDec(digits) => [0x23] + digits
    case ByHex(digits) => [0x23, 0x78] + digits
  }

  function PrintRef(r: Ref): seq<Byte> { [0x26] + RefBody(r) + [0x3B] }

  // ----- attributes

  /** A part of a value. */
  datatype Piece = Literal(ch: seq<Byte>) | Referred(r: Ref)

  datatype Att = Att(gap: seq<Byte>, name: Name, before: seq<Byte>, after: seq<Byte>, quote: Byte, value: seq<Piece>)

  predicate IsPiece(enc: Encoding, p: Piece, quote: Byte) {
    match p
    case Literal(ch) => Legal(enc, ch) && ch != [0x3C] && ch != [0x26] && ch != [quote]
    case Referred(r) => IsRef(enc, r)
  }

  predicate IsAtt(enc: Encoding, a: Att) {
    && a.gap != [] && AllWhite(a.gap) && IsName(enc, a.name) && AllWhite(a.before) && AllWhite(a.after)
    && (a.quote == 0x22 || a.quote == 0x27)
    && (forall k | 0 <= k < |a.value| :: IsPiece(enc, a.value[k], a.quote))
  }

  function PrintPiece(p: Piece): seq<Byte> { if p.Literal? then p.ch else PrintRef(p.r) }

  function PrintPieces(ps: seq<Piece>): seq<Byte> {
    if ps == [] then [] else PrintPiece(ps[0]) + PrintPieces(ps[1..])
  }

  function PrintAtt(a: Att): seq<Byte> {
    a.gap + PrintName(a.name) + a.before + [0x3D] + a.after + [a.quote] + PrintPieces(a.value) + [a.quote]
  }

  function PrintAtts(atts: seq<Att>): seq<Byte> {
    if atts == [] then [] else PrintAtt(atts[0]) + PrintAtts(atts[1..])
  }

  // ----- tags

  datatype Tag = Tag(name: Name, atts: seq<Att>, space: seq<Byte>)

  predicate IsTag(enc: Encoding, t: Tag) {
    IsName(enc, t.name) && AllWhite(t.space) && forall k | 0 <= k < |t.atts| :: IsAtt(enc, t.atts[k])
  }

  function PrintTag(t: Tag, empty: bool): seq<Byte> {
    [0x3C] + PrintName(t.name) + PrintAtts(t.atts) + t.space + (if empty then [0x2F, 0x3E] else [0x3E])
  }

  function PrintEnd(n: Name, space: seq<Byte>): seq<Byte> { [0x3C, 0x2F] + PrintName(n) + space + [0x3E] }

  // ----- comments and processing instructions

  /** No two dashes in a row, and none at the end. */
  predicate IsRemark(enc: Encoding, cs: seq<seq<Byte>>) {
    && (forall k | 0 <= k < |cs| :: Legal(enc, cs[k]))
    && (forall k | 0 <= k < |cs| && cs[k] == [0x2D] :: k + 1 < |cs| && cs[k + 1] != [0x2D])
  }

  function PrintRemark(cs: seq<seq<Byte>>): seq<Byte> { [0x3C, 0x21, 0x2D, 0x2D] + Concat(cs) + [0x2D, 0x2D, 0x3E] }

  /** A target, and text behind one byte of white space. */
  datatype Order = Order(target: seq<seq<Byte>>, gap: seq<Byte>, text: seq<seq<Byte>>)

  /** The target `xml`, in small letters or any. */
  predicate IsXml(s: seq<Byte>) { s == [0x78, 0x6D, 0x6C] }

  predicate LikeXml(s: seq<Byte>) {
    |s| == 3 && (s[0] == 0x78 || s[0] == 0x58) && (s[1] == 0x6D || s[1] == 0x4D) && (s[2] == 0x6C || s[2] == 0x4C)
  }

  predicate IsOrder(enc: Encoding, o: Order) {
    && NcName(enc, o.target) && AllWhite(o.gap)
    && (if o.text == [] then |o.gap| <= 1 else |o.gap| == 1)
    && (forall k | 0 <= k < |o.text| :: Legal(enc, o.text[k]))
    && (forall k | 0 <= k < |o.text| - 1 && o.text[k] == [0x3F] :: o.text[k + 1] != [0x3E])
  }

  function PrintOrder(o: Order): seq<Byte> {
    [0x3C, 0x3F] + Concat(o.target) + o.gap + Concat(o.text) + [0x3F, 0x3E]
  }

  // ----- character data

  /** A character, or a line end in one of its three forms. */
  datatype Data = Single(ch: seq<Byte>) | LineEnd(bytes: seq<Byte>)

  predicate IsLineEnd(s: seq<Byte>) { s == [0x0A] || s == [0x0D] || s == [0x0D, 0x0A] }

  function PrintData(d: Data): seq<Byte> { if d.Single? then d.ch else d.bytes }

  function PrintAllData(ds: seq<Data>): seq<Byte> {
    if ds == [] then [] else PrintData(ds[0]) + PrintAllData(ds[1..])
  }

  /** Data in front of the text `more`: a single CR is no part of a CR LF pair, and there
      is no `]]>`. */
  predicate GoodData(enc: Encoding, d: Data, more: seq<Byte>) {
    match d
    case Single(ch) =>
      Legal(enc, ch) && ch != [0x0D] && ch != [0x0A] && (ch == [0x5D] ==> !Starts(more, [0x5D, 0x3E]))
    case LineEnd(bytes) => IsLineEnd(bytes) && (bytes == [0x0D] ==> !Starts(more, [0x0A]))
  }

  predicate GoodAllData(enc: Encoding, ds: seq<Data>) {
    forall k | 0 <= k < |ds| :: GoodData(enc, ds[k], PrintAllData(ds[k + 1..]))
  }

  function PrintSection(ds: seq<Data>): seq<Byte> {
    [0x3C, 0x21, 0x5B, 0x43, 0x44, 0x41, 0x54, 0x41, 0x5B] + PrintAllData(ds) + [0x5D, 0x5D, 0x3E]
  }

  // ----- trees

  datatype Node =
    | Element(tag: Tag, children: seq<Node>, space: seq<Byte>)
    | Empty(tag: Tag)
    | Chars(data: Data)
    | Section(section: seq<Data>)
    | Note(note: seq<seq<Byte>>)
    | Command(order: Order)
    | Reference(ref: Ref)

  function Print(n: Node): seq<Byte>
    decreases n, 0
  {
    match n
    case Element(tag, children, space) => PrintTag(tag, false) + PrintAll(children) + PrintEnd(tag.name, space)
    case Empty(tag) => PrintTag(tag, true)
    case Chars(data) => PrintData(data)
    case Section(section) => PrintSection(section)
    case Note(note) => PrintRemark(note)
    case Command(order) => PrintOrder(order)
    case Reference(ref) => PrintRef(ref)
  }

  function PrintAll(ns: seq<Node>): seq<Byte>
    decreases ns, 1
  {
    if ns == [] then [] else Print(ns[0]) + PrintAll(ns[1..])
  }

  /** Content that is well formed in front of the text `more`, and that the client takes:
      it accepts the attributes and knows the references. */
  ghost predicate IsNode(c: Client, n: Node, more: seq<Byte>)
    decreases n, 0
  {
    match n
    case Element(tag, children, space) =>
      IsTag(c.enc, tag) && AllWhite(space) && c.atts(PrintTag(tag, false)).None? && AreNodes(c, children)
    case Empty(tag) => IsTag(c.enc, tag) && c.atts(PrintTag(tag, true)).None?
    case Chars(data) => GoodData(c.enc, data, more) && data != Single([0x3C]) && data != Single([0x26])
    case Section(section) => GoodAllData(c.enc, section)
    case Note(note) => IsRemark(c.enc, note)
    case Command(order) => IsOrder(c.enc, order) && !LikeXml(Concat(order.target))
    case Reference(ref) => IsRef(c.enc, ref) && c.reference(PrintRef(ref)).Ok?
  }

  ghost predicate AreNodes(c: Client, ns: seq<Node>)
    decreases ns, 1
  {
    ns == [] || (IsNode(c, ns[0], PrintAll(ns[1..])) && AreNodes(c, ns[1..]))
  }

  // ----- the handler calls

  function DataCalls(d: Data): seq<Event> { [Text(if d.Single? then d.ch else [0x0A])] }

  function AllDataCalls(ds: seq<Data>): seq<Event> {
    if ds == [] then [] else DataCalls(ds[0]) + AllDataCalls(ds[1..])
  }

  function Calls(c: Client, n: Node): seq<Event>
    decreases n, 0
  {
    match n
    case Element(tag, children, _) =>
      [Start(PrintTag(tag, false))] + AllCalls(c, children) + [End(PrintName(tag.name))]
    case Empty(tag) => [Start(PrintTag(tag, true)), End(PrintName(tag.name))]
    case Chars(data) => DataCalls(data)
    case Section(section) => [CdataStart] + AllDataCalls(section) + [CdataEnd]
    case Note(_) => [Remark(Print(n))]
    case Command(_) => [Instruction(Print(n))]
    case Reference(ref) =>
      var r := c.reference(PrintRef(ref));
      [Text(if r.Ok? then r.value else [])]
  }

  function AllCalls(c: Client, ns: seq<Node>): seq<Event>
    decreases ns, 1
  {
    if ns == [] then [] else Calls(c, ns[0]) + AllCalls(c, ns[1..])
  }
}
