/** The attribute list of a printed tag holds the attributes of the tag, each with the
    place of its name and of its value (expat/xmltok_impl.c:1423-1518). */
module AttTags {
  import opened Wrappers
  import opened Endian
  import opened XmlBytes
  import opened XmlScan
  import P = XmlPrint
  import M = XmlMarkup
  import X = XmlContent
  import L = AttList

  /** A name starts and goes on in a name. */
  lemma ListChar(enc: Encoding, s: seq<Byte>, i: nat, ch: seq<Byte>, w: L.Where, name: nat, tail: seq<Byte>)
    requires P.Ascii(enc) && P.InName(enc, ch) && M.Rest(s, i, ch + tail) && (w.Element? || w.InName?)
    ensures M.Rest(s, i + |ch|, tail) && L.Atts(enc, s, i, w, name) == L.Atts(enc, s, i + |ch|, w, name)
  {
    M.CharIs(enc, s, i, ch, tail);
  }

  lemma {:induction false} ListChars(enc: Encoding, s: seq<Byte>, i: nat, cs: seq<seq<Byte>>, w: L.Where, name: nat, tail: seq<Byte>)
    requires P.Ascii(enc) && M.Rest(s, i, X.Concat(cs) + tail) && (w.Element? || w.InName?)
    requires forall k | 0 <= k < |cs| :: P.InName(enc, cs[k])
    ensures var j := i + |X.Concat(cs)|; M.Rest(s, j, tail) && L.Atts(enc, s, i, w, name) == L.Atts(enc, s, j, w, name)
    decreases |cs|
  {
    if cs == [] {
      assert X.Concat(cs) + tail == tail;
    } else {
      M.ConcatFirst(cs, tail);
      ListChar(enc, s, i, cs[0], w, name, X.Concat(cs[1..]) + tail);
      ListChars(enc, s, i + |cs[0]|, cs[1..], w, name, tail);
    }
  }

  /** A byte that is neither white space nor a quote nor an end: a colon or an equals sign. */
  lemma ListMark(enc: Encoding, s: seq<Byte>, i: nat, b: Byte, w: L.Where, name: nat, tail: seq<Byte>)
    requires P.Ascii(enc) && M.Rest(s, i, [b] + tail)
    requires (b == 0x3A && (w.Element? || w.InName?)) || (b == 0x3D && (w.InName? || w.After?))
    ensures M.Rest(s, i + 1, tail) && L.Atts(enc, s, i, w, name) == L.Atts(enc, s, i + 1, w, name)
  {
    M.Past1(s, i, b, tail);
    M.TypeOf(enc, b);
  }

  lemma ListName(enc: Encoding, s: seq<Byte>, i: nat, n: P.Name, w: L.Where, name: nat, tail: seq<Byte>) returns (j: nat)
    requires P.Ascii(enc) && P.IsName(enc, n) && M.Rest(s, i, M.NameThen(n, tail)) && (w.Element? || w.InName?)
    ensures M.Rest(s, j, tail) && L.Atts(enc, s, i, w, name) == L.Atts(enc, s, j, w, name)
  {
    j := i;
    if n.prefix.Some? {
      var p, more := n.prefix.value[1..], X.Concat(n.local[1..]) + tail;
      ListChars(enc, s, i, p, w, name, [0x3A] + (n.local[0] + more));
      j := i + |X.Concat(p)|;
      ListMark(enc, s, j, 0x3A, w, name, n.local[0] + more);
      M.StartIsIn(enc, n.local[0]);
      ListChar(enc, s, j + 1, n.local[0], w, name, more);
      j := j + 1 + |n.local[0]|;
    }
    ListChars(enc, s, j, n.local[1..], w, name, tail);
    j := j + |X.Concat(n.local[1..])|;
  }

  function Behind(w: L.Where): L.Where {
    match w
    case Element => L.Gap
    case InName => L.After
    case _ => w
  }

  lemma {:induction false} ListSpace(enc: Encoding, s: seq<Byte>, i: nat, space: seq<Byte>, w: L.Where, name: nat, tail: seq<Byte>)
    requires P.Ascii(enc) && P.AllWhite(space) && M.Rest(s, i, space + tail)
    ensures var j := i + |space|;
            M.Rest(s, j, tail) && L.Atts(enc, s, i, w, name) == L.Atts(enc, s, j, if space == [] then w else Behind(w), name)
    decreases |space|
  {
    if space == [] {
      assert space + tail == tail;
    } else {
      M.WhiteFirst(space, tail);
      M.Past1(s, i, space[0], space[1..] + tail);
      M.TypeOf(enc, s[i]);
      ListSpace(enc, s, i + 1, space[1..], Behind(w), name, tail);
      assert Behind(Behind(w)) == Behind(w);
    }
  }

  lemma ListFirst(enc: Encoding, s: seq<Byte>, i: nat, ch: seq<Byte>, name: nat, tail: seq<Byte>)
    requires P.Ascii(enc) && P.StartsName(enc, ch) && M.Rest(s, i, ch + tail)
    ensures M.Rest(s, i + |ch|, tail) && L.Atts(enc, s, i, L.Gap, name) == L.Atts(enc, s, i + |ch|, L.InName, i)
  {
    M.CharIs(enc, s, i, ch, tail);
  }

  lemma NotLast(s: seq<Byte>, i: nat, tail: seq<Byte>)
    requires M.Rest(s, i, tail) && tail != []
    ensures i < |s|
  {
    M.RestIs(s, i, tail);
  }

  /** The place of a value behind its opening quote. */
  lemma ValuePlace(enc: Encoding, s: seq<Byte>, i: nat, ps: seq<P.Piece>, quote: Byte, tail: seq<Byte>) returns (end: nat)
    requires P.Ascii(enc) && M.ArePieces(enc, ps, quote) && (quote == 0x22 || quote == 0x27)
    requires M.Rest(s, i, P.PrintPieces(ps) + ([quote] + tail)) && tail != []
    ensures i <= end && end + 1 < |s| && s[i..end] == P.PrintPieces(ps) && M.Rest(s, end + 1, tail)
    ensures ValueRun(enc, s, i, enc.byteType(quote)) == Go(end + 1, AttClosed)
  {
    var text := P.PrintPieces(ps);
    M.Past(s, i, text, [quote] + tail);
    end := i + |text|;
    var j := M.ValueEnd(enc, s, i, ps, quote, tail);
    M.Past1(s, end, quote, tail);
    M.SamePlace(s, j, end + 1, tail);
    NotLast(s, j, tail);
  }

  lemma ListQuote(enc: Encoding, s: seq<Byte>, i: nat, w: L.Where, name: nat, end: nat) returns (norm: bool)
    requires P.Ascii(enc) && i < |s| && (s[i] == 0x22 || s[i] == 0x27) && (w.InName? || w.After?)
    requires ValueRun(enc, s, i + 1, enc.byteType(s[i])) == Go(end + 1, AttClosed) && end + 1 < |s|
    ensures L.Atts(enc, s, i, w, name) == L.Cons(L.Att(name, i + 1, end, norm), L.Atts(enc, s, end + 1, L.Gap, 0))
  {
    var t := enc.byteType(s[i]);
    M.TypeOf(enc, s[i]);
    M.TypeOf(enc, 0x78);
    L.ValueEnds(enc, s, i + 1, t, i + 1, true);
    norm := L.ValueScan(enc, s, i + 1, t, i + 1, true).value.1;
    L.AttsQuote(enc, s, i, w, name);
  }

  /** A value in its quotes is the attribute that is found first. */
  lemma ListValue(enc: Encoding, s: seq<Byte>, i: nat, ps: seq<P.Piece>, quote: Byte, w: L.Where, name: nat, tail: seq<Byte>)
      returns (end: nat, norm: bool)
    requires P.Ascii(enc) && M.ArePieces(enc, ps, quote) && (quote == 0x22 || quote == 0x27) && (w.InName? || w.After?)
    requires M.Rest(s, i, [quote] + (P.PrintPieces(ps) + ([quote] + tail))) && tail != []
    ensures i < end < |s| && s[i + 1..end] == P.PrintPieces(ps) && M.Rest(s, end + 1, tail)
    ensures L.Atts(enc, s, i, w, name) == L.Cons(L.Att(name, i + 1, end, norm), L.Atts(enc, s, end + 1, L.Gap, 0))
  {
    M.Past1(s, i, quote, P.PrintPieces(ps) + ([quote] + tail));
    end := ValuePlace(enc, s, i + 1, ps, quote, tail);
    norm := ListQuote(enc, s, i, w, name, end);
  }

  /** An entry shows an attribute: the place of its name and that of its value. */
  ghost predicate Shows(s: seq<Byte>, x: L.Att, a: P.Att) {
    && x.name + |P.PrintName(a.name)| <= x.valuePtr <= x.valueEnd < |s|
    && s[x.name..x.name + |P.PrintName(a.name)|] == P.PrintName(a.name)
    && s[x.valuePtr..x.valueEnd] == P.PrintPieces(a.value)
  }

  ghost predicate AllShown(s: seq<Byte>, list: Option<seq<L.Att>>, atts: seq<P.Att>) {
    list.Some? && |list.value| == |atts| && forall k | 0 <= k < |atts| :: Shows(s, list.value[k], atts[k])
  }

  lemma OneMore(s: seq<Byte>, x: L.Att, a: P.Att, list: Option<seq<L.Att>>, atts: seq<P.Att>)
    requires Shows(s, x, a) && AllShown(s, list, atts)
    ensures AllShown(s, L.Cons(x, list), [a] + atts)
  {
  }

  /** The name of an attribute, and where it starts. */
  lemma ListAttName(enc: Encoding, s: seq<Byte>, i: nat, n: P.Name, tail: seq<Byte>) returns (j: nat)
    requires P.Ascii(enc) && P.IsName(enc, n) && M.Rest(s, i, P.PrintName(n) + tail)
    ensures M.Rest(s, j, tail) && j == i + |P.PrintName(n)| <= |s| && s[i..j] == P.PrintName(n)
    ensures forall name :: L.Atts(enc, s, i, L.Gap, name) == L.Atts(enc, s, j, L.InName, i)
  {
    var ch := M.FirstChar(n);
    M.Past(s, i, P.PrintName(n), tail);
    M.NameParts(n, tail);
    ListFirst(enc, s, i, ch, 0, M.NameThen(n, tail));
    j := ListName(enc, s, i + |ch|, n, L.InName, i, tail);
    M.SamePlace(s, j, i + |P.PrintName(n)|, tail);
    forall name
      ensures L.Atts(enc, s, i, L.Gap, name) == L.Atts(enc, s, j, L.InName, i)
    {
      ListFirst(enc, s, i, ch, name, M.NameThen(n, tail));
    }
  }

  /** From behind a name to the opening quote. */
  lemma ListToValue(enc: Encoding, s: seq<Byte>, i: nat, before: seq<Byte>, after: seq<Byte>, name: nat, tail: seq<Byte>)
      returns (j: nat, w: L.Where)
    requires P.Ascii(enc) && P.AllWhite(before) && P.AllWhite(after) && M.Rest(s, i, before + ([0x3D] + (after + tail)))
    ensures M.Rest(s, j, tail) && i < j <= |s| && (w.InName? || w.After?)
    ensures L.Atts(enc, s, i, L.InName, name) == L.Atts(enc, s, j, w, name)
  {
    var k := i + |before|;
    ListSpace(enc, s, i, before, L.InName, name, [0x3D] + (after + tail));
    w := if before == [] then L.InName else L.After;
    ListMark(enc, s, k, 0x3D, w, name, after + tail);
    ListSpace(enc, s, k + 1, after, w, name, tail);
    j := k + 1 + |after|;
    w := if after == [] then w else Behind(w);
  }

  /** The value of an attribute, from behind its name on. */
  lemma ListRest(enc: Encoding, s: seq<Byte>, i: nat, a: P.Att, name: nat, tail: seq<Byte>)
      returns (value: nat, end: nat, norm: bool)
    requires P.Ascii(enc) && P.AllWhite(a.before) && P.AllWhite(a.after) && M.ArePieces(enc, a.value, a.quote)
    requires (a.quote == 0x22 || a.quote == 0x27) && tail != []
    requires M.Rest(s, i, a.before + ([0x3D] + (a.after + ([a.quote] + (P.PrintPieces(a.value) + ([a.quote] + tail))))))
    ensures i < value <= end < |s| && s[value..end] == P.PrintPieces(a.value) && M.Rest(s, end + 1, tail)
    ensures L.Atts(enc, s, i, L.InName, name) == L.Cons(L.Att(name, value, end, norm), L.Atts(enc, s, end + 1, L.Gap, 0))
  {
    var q, w := ListToValue(enc, s, i, a.before, a.after, name, [a.quote] + (P.PrintPieces(a.value) + ([a.quote] + tail)));
    end, norm := ListValue(enc, s, q, a.value, a.quote, w, name, tail);
    value := q + 1;
  }

  /** An attribute from its name on. */
  lemma ListNamed(enc: Encoding, s: seq<Byte>, i: nat, a: P.Att, name: nat, tail: seq<Byte>) returns (x: L.Att, j: nat)
    requires P.Ascii(enc) && P.IsAtt(enc, a) && tail != []
    requires M.Rest(s, i, P.PrintName(a.name) +
               (a.before + ([0x3D] + (a.after + ([a.quote] + (P.PrintPieces(a.value) + ([a.quote] + tail)))))))
    ensures M.Rest(s, j, tail) && Shows(s, x, a)
    ensures L.Atts(enc, s, i, L.Gap, name) == L.Cons(x, L.Atts(enc, s, j, L.Gap, 0))
  {
    var k := ListAttName(enc, s, i, a.name,
      a.before + ([0x3D] + (a.after + ([a.quote] + (P.PrintPieces(a.value) + ([a.quote] + tail))))));
    var value, end, norm := ListRest(enc, s, k, a, i, tail);
    x, j := L.Att(i, value, end, norm), end + 1;
  }

  /** An attribute behind a name or behind another attribute. */
  lemma ListAtt(enc: Encoding, s: seq<Byte>, i: nat, a: P.Att, w: L.Where, name: nat, tail: seq<Byte>)
      returns (x: L.Att, j: nat)
    requires P.Ascii(enc) && P.IsAtt(enc, a) && tail != [] && (w.Element? || w.Gap?) && M.Rest(s, i, P.PrintAtt(a) + tail)
    ensures M.Rest(s, j, tail) && Shows(s, x, a) == true
    ensures L.Atts(enc, s, i, w, name) == L.Cons(x, L.Atts(enc, s, j, L.Gap, 0))
  {
    var pieces := P.PrintPieces(a.value);
    M.Group8(a.gap, P.PrintName(a.name), a.before, [0x3D], a.after, [a.quote], pieces, [a.quote], tail);
    ListSpace(enc, s, i, a.gap, w, name,
      P.PrintName(a.name) + (a.before + ([0x3D] + (a.after + ([a.quote] + (pieces + ([a.quote] + tail)))))));
    x, j := ListNamed(enc, s, i + |a.gap|, a, name, tail);
  }

  /** The end of a tag ends the list. */
  lemma ListEnd(enc: Encoding, s: seq<Byte>, i: nat, space: seq<Byte>, empty: bool, w: L.Where, name: nat)
    requires P.Ascii(enc) && P.AllWhite(space) && M.Rest(s, i, space + M.Close(empty))
    ensures L.Atts(enc, s, i, w, name) == Some([])
  {
    ListSpace(enc, s, i, space, w, name, M.Close(empty));
    M.CloseFirst(s, i + |space|, empty);
    M.TypeOf(enc, s[i + |space|]);
  }

  /** The list from `i` on is `atts`, if that from `j` on is. */
  lemma ListStep(enc: Encoding, s: seq<Byte>, i: nat, atts: seq<P.Att>, w: L.Where, name: nat, end: seq<Byte>) returns (j: nat)
    requires P.Ascii(enc) && M.AreAtts(enc, atts) && atts != [] && end != [] && (w.Element? || w.Gap?)
    requires M.Rest(s, i, P.PrintAtts(atts) + end)
    ensures M.Rest(s, j, P.PrintAtts(atts[1..]) + end) && M.AreAtts(enc, atts[1..])
    ensures AllShown(s, L.Atts(enc, s, j, L.Gap, 0), atts[1..]) == true ==>
              AllShown(s, L.Atts(enc, s, i, w, name), atts) == true
  {
    var x;
    M.AttsFirst(enc, atts, end);
    x, j := ListAtt(enc, s, i, atts[0], w, name, P.PrintAtts(atts[1..]) + end);
    if AllShown(s, L.Atts(enc, s, j, L.Gap, 0), atts[1..]) {
      OneMore(s, x, atts[0], L.Atts(enc, s, j, L.Gap, 0), atts[1..]);
      assert [atts[0]] + atts[1..] == atts;
    }
  }

  lemma {:induction false} ListAll(enc: Encoding, s: seq<Byte>, i: nat, atts: seq<P.Att>, space: seq<Byte>, empty: bool,
                                   w: L.Where, name: nat)
    requires P.Ascii(enc) && M.AreAtts(enc, atts) && P.AllWhite(space) && (w.Element? || w.Gap?)
    requires M.Rest(s, i, P.PrintAtts(atts) + (space + M.Close(empty)))
    ensures AllShown(s, L.Atts(enc, s, i, w, name), atts) == true
    decreases |atts|
  {
    var end := space + M.Close(empty);
    if atts == [] {
      assert P.PrintAtts(atts) + end == end;
      ListEnd(enc, s, i, space, empty, w, name);
    } else {
      var j := ListStep(enc, s, i, atts, w, name, end);
      ListAll(enc, s, j, atts[1..], space, empty, L.Gap, 0);
    }
  }

  /** The attribute list of a printed tag is that of the tag. */
  lemma TagListed(enc: Encoding, t: P.Tag, empty: bool)
    requires P.Ascii(enc) && P.IsTag(enc, t)
    ensures AllShown(P.PrintTag(t, empty), L.Atts(enc, P.PrintTag(t, empty), 1, L.Element, 0), t.atts)
  {
    var s, ch := P.PrintTag(t, empty), M.FirstChar(t.name);
    var inner := P.PrintAtts(t.atts) + (t.space + M.Close(empty));
    M.TagParts(t, empty);
    M.Whole(s);
    M.Past1(s, 0, 0x3C, ch + M.NameThen(t.name, inner));
    M.StartIsIn(enc, ch);
    ListChar(enc, s, 1, ch, L.Element, 0, M.NameThen(t.name, inner));
    var j := ListName(enc, s, 1 + |ch|, t.name, L.Element, 0, inner);
    ListAll(enc, s, j, t.atts, t.space, empty, L.Element, 0);
  }
}
