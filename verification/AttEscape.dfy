/** What the references in an attribute value stand for, told by printers: the names of the
    five predefined entities letter by letter, numbers by their digits
    (expat/xmltok_impl.c:1257-1309, 1520-1610; expat/xmlparse.c:4701-4863). */
module AttEscape {
  import opened Endian
  import opened Unicode
  import opened XmlBytes
  import opened XmlScan
  import opened AttValue
  import P = XmlPrint
  import M = XmlMarkup
  import X = XmlContent

  // ----- digits

  function Dec(n: nat): (d: seq<Byte>)
    ensures d != []
  {
    (if n < 10 then [] else Dec(n / 10)) + [0x30 + n % 10]
  }

  /** Hexadecimal digits, letters in small or capital form. */
  function Hexa(n: nat, capitals: bool): (d: seq<Byte>)
    ensures d != []
  {
    var x := n % 16;
    (if n < 16 then [] else Hexa(n / 16, capitals)) +
    [if x < 10 then 0x30 + x else if capitals then 0x41 + x - 10 else 0x61 + x - 10]
  }

  lemma {:induction false} DecBack(n: nat)
    ensures Value(Dec(n), 10) == n && forall k | 0 <= k < |Dec(n)| :: P.IsDec(Dec(n)[k])
  {
    var d := Dec(n);
    var k := |d| - 1;
    assert d[..k] == if n < 10 then [] else Dec(n / 10);
    if n >= 10 {
      DecBack(n / 10);
    }
  }

  lemma {:induction false} HexaBack(n: nat, capitals: bool)
    ensures Value(Hexa(n, capitals), 16) == n && forall k | 0 <= k < |Hexa(n, capitals)| :: P.IsHex(Hexa(n, capitals)[k])
  {
    var d := Hexa(n, capitals);
    var k := |d| - 1;
    assert d[..k] == if n < 16 then [] else Hexa(n / 16, capitals);
    if n >= 16 {
      HexaBack(n / 16, capitals);
    }
  }

  // ----- values by what they say

  /** A part of a value that names no entity of the document: a character, white space, one
      of the five characters by its name, or any character by its number. */
  datatype Part =
    | Letter(ch: seq<Byte>)
    | Blank(space: seq<Byte>)
    | Named(c: Byte)
    | ByDec(n: nat)
    | ByHex(n: nat, capitals: bool)

  predicate IsNamed(c: Byte) { c in {0x3C, 0x3E, 0x26, 0x22, 0x27} }

  /** `lt`, `gt`, `amp`, `quot` and `apos`. */
  function NameOf(c: Byte): seq<Byte>
    requires IsNamed(c)
  {
    if c == 0x3C then [0x6C, 0x74]
    else if c == 0x3E then [0x67, 0x74]
    else if c == 0x26 then [0x61, 0x6D, 0x70]
    else if c == 0x22 then [0x71, 0x75, 0x6F, 0x74]
    else [0x61, 0x70, 0x6F, 0x73]
  }

  /** A text of characters of one byte. */
  function Singles(s: seq<Byte>): seq<seq<Byte>> {
    if s == [] then [] else [[s[0]]] + Singles(s[1..])
  }

  predicate IsBlank(s: seq<Byte>) { s in {[0x20], [0x09], [0x0A], [0x0D], [0x0D, 0x0A]} }

  /** A part in front of the text `more`: a single CR is no part of a pair. */
  predicate IsPart(enc: Encoding, p: Part, more: seq<Byte>) {
    match p
    case Letter(ch) => P.Legal(enc, ch) && ch != [0x3C] && ch != [0x26] && !P.White(ch[0])
    case Blank(space) => IsBlank(space) && (space == [0x0D] ==> !P.Starts(more, [0x0A]))
    case Named(c) => IsNamed(c)
    case ByDec(n) => IsChar(n)
    case ByHex(n, _) => IsChar(n)
  }

  function RefOf(p: Part): P.Ref
    requires p.ByDec? || p.ByHex? || (p.Named? && IsNamed(p.c))
  {
    match p
    case Named(c) => P.ByName(Singles(NameOf(c)))
    case ByDec(n) => P.ByDec(Dec(n))
    case ByHex(n, capitals) => P.ByHex(Hexa(n, capitals))
  }

  function Spell(p: Part): seq<Byte>
    requires p.Named? ==> IsNamed(p.c)
  {
    match p
    case Letter(ch) => ch
    case Blank(space) => space
    case _ => P.PrintRef(RefOf(p))
  }

  /** The bytes that a part stands for. */
  function Said(p: Part): seq<Byte> {
    match p
    case Letter(ch) => ch
    case Blank(_) => [SPACE]
    case Named(c) => [c]
    case ByDec(n) => if IsChar(n) then Encode8(n) else []
    case ByHex(n, _) => if IsChar(n) then Encode8(n) else []
  }

  predicate Nameable(ps: seq<Part>) {
    forall k | 0 <= k < |ps| && ps[k].Named? :: IsNamed(ps[k].c)
  }

  function SpellAll(ps: seq<Part>): seq<Byte>
    requires Nameable(ps)
  {
    if ps == [] then [] else Spell(ps[0]) + SpellAll(ps[1..])
  }

  function SaidAll(ps: seq<Part>): seq<Byte> {
    if ps == [] then [] else Said(ps[0]) + SaidAll(ps[1..])
  }

  predicate AreParts(enc: Encoding, ps: seq<Part>)
    requires Nameable(ps)
  {
    ps == [] || (IsPart(enc, ps[0], SpellAll(ps[1..])) && AreParts(enc, ps[1..]))
  }

  // ----- one part

  predicate Small(s: seq<Byte>) { forall k | 0 <= k < |s| :: 0x61 <= s[k] <= 0x7A }

  lemma {:induction false} SinglesBack(enc: Encoding, s: seq<Byte>)
    requires P.Ascii(enc) && Small(s)
    ensures X.Concat(Singles(s)) == s && |Singles(s)| == |s|
    ensures forall k | 0 <= k < |s| :: P.InName(enc, Singles(s)[k]) && P.StartsName(enc, Singles(s)[k])
  {
    if s != [] {
      M.TypeOf(enc, s[0]);
      SinglesBack(enc, s[1..]);
    }
  }

  lemma NameIs(enc: Encoding, c: Byte)
    requires P.Ascii(enc) && IsNamed(c)
    ensures P.NcName(enc, Singles(NameOf(c))) && X.Concat(Singles(NameOf(c))) == NameOf(c)
  {
    SinglesBack(enc, NameOf(c));
  }

  lemma RefIs(enc: Encoding, p: Part)
    requires P.Ascii(enc) && IsPart(enc, p, []) && (p.Named? || p.ByDec? || p.ByHex?)
    ensures P.IsRef(enc, RefOf(p)) == true
  {
    match p
    case Named(c) => NameIs(enc, c);
    case ByDec(n) => DecBack(n);
    case ByHex(n, capitals) => HexaBack(n, capitals);
  }

  lemma TextOf(tok: seq<Byte>, digits: seq<Byte>, base: nat, n: nat)
    requires |tok| >= 4 && RefDigits(tok) == (digits, base) && Value(digits, base) == n && IsChar(n)
    ensures CharRefText(tok) == Ok(Encode8(n))
  {
  }

  /** The digits inside a reference. */
  lemma DecDigits(d: seq<Byte>)
    requires d != [] && P.IsDec(d[0])
    ensures var tok := [0x26] + ([0x23] + d) + [0x3B]; |tok| >= 4 && RefDigits(tok) == (d, 10)
  {
    var tok := [0x26] + ([0x23] + d) + [0x3B];
    assert tok[2] == d[0] && tok[2..|tok| - 1] == d;
  }

  lemma HexDigits(d: seq<Byte>)
    requires d != []
    ensures var tok := [0x26] + ([0x23, 0x78] + d) + [0x3B]; |tok| >= 4 && RefDigits(tok) == (d, 16)
  {
    var tok := [0x26] + ([0x23, 0x78] + d) + [0x3B];
    assert tok[2] == 0x78 && tok[3..|tok| - 1] == d;
  }

  lemma NumberSaid(n: nat, hex: bool, capitals: bool)
    requires IsChar(n)
    ensures CharRefText(P.PrintRef(if hex then P.ByHex(Hexa(n, capitals)) else P.ByDec(Dec(n)))) == Ok(Encode8(n))
  {
    if hex {
      var d := Hexa(n, capitals);
      HexaBack(n, capitals);
      HexDigits(d);
      TextOf([0x26] + ([0x23, 0x78] + d) + [0x3B], d, 16, n);
    } else {
      var d := Dec(n);
      DecBack(n);
      DecDigits(d);
      TextOf([0x26] + ([0x23] + d) + [0x3B], d, 10, n);
    }
  }

  /** A reference stands for what its printer says. */
  lemma RefSaid(e: Env, open: set<seq<Byte>>, p: Part, deep: bool)
    requires P.Ascii(e.enc) && IsPart(e.enc, p, []) && (p.Named? || p.ByDec? || p.ByHex?)
    ensures Reference(e, open, P.PrintRef(RefOf(p)), M.RefKind(RefOf(p)), deep) == Ok(Said(p))
  {
    var tok := P.PrintRef(RefOf(p));
    if p.Named? {
      NameIs(e.enc, p.c);
      assert tok == [0x26] + NameOf(p.c) + [0x3B];
      assert tok[1..|tok| - 1] == NameOf(p.c);
    } else {
      NumberSaid(p.n, p.ByHex?, p.ByHex? && p.capitals);
    }
  }

  lemma RefTurn(e: Env, open: set<seq<Byte>>, r: P.Ref, more: seq<Byte>, deep: bool)
    requires P.Ascii(e.enc) && P.IsRef(e.enc, r)
    ensures Expand(e, open, P.PrintRef(r) + more, true, deep) ==
            Before(Reference(e, open, P.PrintRef(r), M.RefKind(r), deep), Expand(e, open, more, true, deep))
  {
    var s, n := P.PrintRef(r) + more, |P.PrintRef(r)|;
    M.Whole(s);
    M.RefInside(e.enc, s, 0, r, more);
    M.TypeOf(e.enc, s[0]);
    assert s[..n] == P.PrintRef(r) && s[n..] == more;
  }

  lemma RefExpands(e: Env, open: set<seq<Byte>>, p: Part, more: seq<Byte>, deep: bool)
    requires P.Ascii(e.enc) && IsPart(e.enc, p, []) && (p.Named? || p.ByDec? || p.ByHex?)
    ensures Expand(e, open, Spell(p) + more, true, deep) == Before(Ok(Said(p)), Expand(e, open, more, true, deep))
  {
    RefIs(e.enc, p);
    RefSaid(e, open, p, deep);
    RefTurn(e, open, RefOf(p), more, deep);
  }

  lemma BlankExpands(e: Env, open: set<seq<Byte>>, space: seq<Byte>, more: seq<Byte>, deep: bool)
    requires P.Ascii(e.enc) && IsBlank(space) && (space == [0x0D] ==> !P.Starts(more, [0x0A]))
    ensures Expand(e, open, space + more, true, deep) == Before(Ok([SPACE]), Expand(e, open, more, true, deep))
  {
    var s := space + more;
    M.TypeOf(e.enc, s[0]);
    if |s| > 1 {
      M.TypeOf(e.enc, s[1]);
      assert more != [] ==> more[..1] == [more[0]];
    }
    assert SpaceLen(e.enc, s, true) == |space|;
    assert s[|space|..] == more;
  }

  lemma LetterExpands(e: Env, open: set<seq<Byte>>, ch: seq<Byte>, more: seq<Byte>, deep: bool)
    requires P.Ascii(e.enc) && IsPart(e.enc, Letter(ch), [])
    ensures Expand(e, open, ch + more, true, deep) == Before(Ok(ch), Expand(e, open, more, true, deep))
  {
    var s := ch + more;
    M.TypeOf(e.enc, s[0]);
    M.OneByte(e.enc, ch, 0x3C);
    M.OneByte(e.enc, ch, 0x26);
    assert CharLen(e.enc, s) == |ch|;
    assert s[..|ch|] == ch && s[|ch|..] == more;
  }

  lemma {:induction false} PartsExpand(e: Env, open: set<seq<Byte>>, ps: seq<Part>, deep: bool)
    requires P.Ascii(e.enc) && Nameable(ps) && AreParts(e.enc, ps)
    ensures Expand(e, open, SpellAll(ps), true, deep) == Ok(SaidAll(ps))
    decreases |ps|
  {
    if ps != [] {
      var p, more := ps[0], SpellAll(ps[1..]);
      PartsExpand(e, open, ps[1..], deep);
      match p
      case Letter(ch) => LetterExpands(e, open, ch, more, deep);
      case Blank(space) => BlankExpands(e, open, space, more, deep);
      case _ => RefExpands(e, open, p, more, deep);
    }
  }

  /** A value that names no entity of the document has the value that its parts say, whatever
      is declared, by the code and by the standard. */
  lemma PartsMean(e: Env, isCdata: bool, ps: seq<Part>)
    requires P.Ascii(e.enc) && Nameable(ps) && AreParts(e.enc, ps)
    ensures ByCode(e, isCdata, SpellAll(ps)) == Ok(Normalized(isCdata, SaidAll(ps)))
    ensures ByStandard(e, isCdata, SpellAll(ps)) == Ok(Normalized(isCdata, SaidAll(ps)))
  {
    PartsExpand(e, {}, ps, true);
    PartsExpand(e, {}, ps, false);
  }

  lemma OnePart(e: Env, isCdata: bool, p: Part)
    requires P.Ascii(e.enc) && IsPart(e.enc, p, [])
    ensures ByCode(e, isCdata, Spell(p)) == Ok(Normalized(isCdata, Said(p)))
  {
    assert SpellAll([p]) == Spell(p) + [] == Spell(p);
    assert SaidAll([p]) == Said(p) + [] == Said(p);
    PartsMean(e, isCdata, [p]);
  }

  lemma OneWord(isCdata: bool, c: Byte)
    requires c != SPACE
    ensures Normalized(isCdata, [c]) == [c]
  {
    assert [c][1..] == [] && [] + [c] == [c];
    assert WordsFrom([c], []) == [[c]];
    assert WordsFrom([], [c]) == WordsFrom([c], []);
  }

  lemma OneRef(e: Env, isCdata: bool, p: Part, c: Byte)
    requires P.Ascii(e.enc) && IsPart(e.enc, p, []) && Said(p) == [c] && c != SPACE
    ensures ByCode(e, isCdata, Spell(p)) == Ok([c])
  {
    OnePart(e, isCdata, p);
    OneWord(isCdata, c);
  }

  lemma NumberedMeans(e: Env, isCdata: bool, c: Byte, capitals: bool)
    requires P.Ascii(e.enc) && IsNamed(c)
    ensures ByCode(e, isCdata, [0x26] + ([0x23] + Dec(c)) + [0x3B]) == Ok([c])
    ensures ByCode(e, isCdata, [0x26] + ([0x23, 0x78] + Hexa(c, capitals)) + [0x3B]) == Ok([c])
  {
    OneRef(e, isCdata, ByDec(c), c);
    OneRef(e, isCdata, ByHex(c, capitals), c);
  }

  /** Each predefined name stands for the character that its number stands for. */
  lemma NamedIsNumbered(e: Env, isCdata: bool, c: Byte, capitals: bool)
    requires P.Ascii(e.enc) && IsNamed(c)
    ensures ByCode(e, isCdata, [0x26] + NameOf(c) + [0x3B]) == Ok([c])
    ensures ByCode(e, isCdata, [0x26] + ([0x23] + Dec(c)) + [0x3B]) == Ok([c])
    ensures ByCode(e, isCdata, [0x26] + ([0x23, 0x78] + Hexa(c, capitals)) + [0x3B]) == Ok([c])
  {
    NumberedMeans(e, isCdata, c, capitals);
    NameIs(e.enc, c);
    OneRef(e, isCdata, Named(c), c);
  }

  // ----- escaping

  /** Characters, with the five that are markup spelled as references. */
  function Escape(cs: seq<seq<Byte>>): seq<Byte> {
    if cs == [] then []
    else
      (if |cs[0]| == 1 && IsNamed(cs[0][0]) then [0x26] + NameOf(cs[0][0]) + [0x3B] else cs[0]) + Escape(cs[1..])
  }

  /** Legal characters, of white space only the space. */
  predicate IsText(enc: Encoding, cs: seq<seq<Byte>>) {
    forall k | 0 <= k < |cs| :: P.Legal(enc, cs[k]) && (P.White(cs[k][0]) ==> cs[k] == [SPACE])
  }

  /** The parts that an escaped text is made of. */
  function Parts(cs: seq<seq<Byte>>): seq<Part> {
    if cs == [] then []
    else
      var ch := cs[0];
      [if |ch| == 1 && IsNamed(ch[0]) then Named(ch[0]) else if ch == [SPACE] then Blank(ch) else Letter(ch)] +
      Parts(cs[1..])
  }

  lemma {:induction false} EscapeIsParts(enc: Encoding, cs: seq<seq<Byte>>)
    requires P.Ascii(enc) && IsText(enc, cs)
    ensures Nameable(Parts(cs)) && AreParts(enc, Parts(cs))
    ensures SpellAll(Parts(cs)) == Escape(cs) && SaidAll(Parts(cs)) == X.Concat(cs)
  {
    if cs != [] {
      var ch := cs[0];
      EscapeIsParts(enc, cs[1..]);
      if |ch| == 1 && IsNamed(ch[0]) {
        NameIs(enc, ch[0]);
      }
    }
  }

  /** Escaping is undone by the reading of a value: every text comes back. */
  lemma EscapeBack(e: Env, isCdata: bool, cs: seq<seq<Byte>>)
    requires P.Ascii(e.enc) && IsText(e.enc, cs)
    ensures ByCode(e, isCdata, Escape(cs)) == Ok(Normalized(isCdata, X.Concat(cs)))
  {
    EscapeIsParts(e.enc, cs);
    PartsMean(e, isCdata, Parts(cs));
  }

  // ----- references to entities

  /** A name that is none of the five. */
  predicate IsEntity(enc: Encoding, name: seq<seq<Byte>>) {
    P.NcName(enc, name) && forall c | IsNamed(c) :: X.Concat(name) != NameOf(c)
  }

  lemma NotPredefined(enc: Encoding, name: seq<seq<Byte>>)
    requires IsEntity(enc, name)
    ensures Predefined(X.Concat(name)) == 0
  {
    var key := X.Concat(name);
    assert IsNamed(0x3C) && IsNamed(0x3E) && IsNamed(0x26) && IsNamed(0x22) && IsNamed(0x27);
    assert key != NameOf(0x3C) && key != NameOf(0x3E) && key != NameOf(0x26) && key != NameOf(0x22) && key != NameOf(0x27);
  }

  lemma EntityExpands(e: Env, open: set<seq<Byte>>, name: seq<seq<Byte>>)
    requires P.Ascii(e.enc) && P.NcName(e.enc, name)
    ensures var tok := P.PrintRef(P.ByName(name));
            Expand(e, open, tok, true, true) == Reference(e, open, tok, EntityRef, true)
  {
    var tok := P.PrintRef(P.ByName(name));
    var x := Reference(e, open, tok, EntityRef, true);
    assert tok + [] == tok;
    RefTurn(e, open, P.ByName(name), [], true);
    assert x.Ok? ==> x.text + [] == x.text;
  }

  /** The value of a reference to an entity: an undeclared one is an error or nothing, and
      so are, each its own, one declared where it must not be, an unparsed and an external
      one; of an internal one the text is read. */
  lemma EntityMeans(e: Env, isCdata: bool, name: seq<seq<Byte>>, ps: seq<Part>)
    requires P.Ascii(e.enc) && IsEntity(e.enc, name) && Nameable(ps) && AreParts(e.enc, ps)
    ensures var key, r := X.Concat(name), ByCode(e, isCdata, P.PrintRef(P.ByName(name)));
            && (key !in e.ents && e.checkDecl ==> r == Fail(UndefinedEntity))
            && (key !in e.ents && !e.checkDecl ==> r == Ok([]))
            && (key in e.ents ==>
                  var x := e.ents[key];
                  && (e.checkDecl && !x.isInternal ==> r == Fail(EntityDeclaredInPe))
                  && ((e.checkDecl ==> x.isInternal) && x.notation ==> r == Fail(BinaryEntityRef))
                  && ((e.checkDecl ==> x.isInternal) && !x.notation && !x.hasText ==> r == Fail(ExternalEntityRef))
                  && ((e.checkDecl ==> x.isInternal) && !x.notation && x.hasText && x.text == SpellAll(ps) ==>
                        r == Ok(Normalized(isCdata, SaidAll(ps)))))
  {
    var key, tok := X.Concat(name), P.PrintRef(P.ByName(name));
    assert tok[1..|tok| - 1] == key;
    NotPredefined(e.enc, name);
    EntityExpands(e, {}, name);
    PartsExpand(e, {} + {key}, ps, true);
    assert Words([]) == [];
  }

  /** An entity whose text is a reference to itself. */
  lemma SelfRecursive(e: Env, isCdata: bool, name: seq<seq<Byte>>)
    requires P.Ascii(e.enc) && IsEntity(e.enc, name)
    requires e.ents == map[X.Concat(name) := Ent(true, P.PrintRef(P.ByName(name)), false, true)]
    ensures ByCode(e, isCdata, P.PrintRef(P.ByName(name))) == Fail(RecursiveEntityRef)
  {
    var key, tok := X.Concat(name), P.PrintRef(P.ByName(name));
    assert tok[1..|tok| - 1] == key;
    NotPredefined(e.enc, name);
    EntityExpands(e, {}, name);
    EntityExpands(e, {} + {key}, name);
  }
}
