/** The parse of element content succeeds exactly on the texts of well-formed trees
    (expat/xmlparse.c:2121-2573). */
module XmlExactly {
  import opened Wrappers
  import opened Endian
  import opened XmlBytes
  import opened XmlScan
  import opened XmlContent
  import opened XmlPrint
  import opened XmlMarkup
  import opened XmlReads
  import opened XmlShape

  // ----- markup

  /** What a token other than data is the text of. */
  datatype Shape = OfTag(tag: Tag, empty: bool) | OfEnd(space: seq<Byte>) | OfOpen | OfLeaf(node: Node)

  ghost predicate IsShape(enc: Encoding, sh: Shape, kind: Kind, tok: seq<Byte>) {
    match sh
    case OfTag(tag, empty) => IsTag(enc, tag) && tok == PrintTag(tag, empty) && kind == TagKind(tag, empty)
    case OfEnd(space) =>
      kind == EndTag && AllWhite(space) && tok == [0x3C, 0x2F] + RawName(enc, tok, 2) + space + [0x3E]
    case OfOpen => kind == CdataOpen && tok == [0x3C, 0x21, 0x5B, 0x43, 0x44, 0x41, 0x54, 0x41, 0x5B]
    case OfLeaf(node) => IsLeaf(enc, node, kind) && tok == Print(node)
  }

  ghost predicate IsLeaf(enc: Encoding, node: Node, kind: Kind) {
    match node
    case Note(note) => IsRemark(enc, note) && kind == Comment
    case Command(order) =>
      IsOrder(enc, order) && kind == PiKind(IsXml(Concat(order.target))) &&
      (LikeXml(Concat(order.target)) ==> IsXml(Concat(order.target)))
    case Reference(ref) => IsRef(enc, ref) && kind == RefKind(ref)
    case _ => false
  }

  lemma RemarkIs(enc: Encoding, s: seq<Byte>, kind: Kind, next: nat) returns (node: Node)
    requires Ascii(enc) && |s| > 3 && s[0] == 0x3C && s[1] == 0x21 && s[2] == 0x2D
    requires CommentRun(enc, s, 3, CommentFirst) == Tok(kind, next)
    ensures next <= |s| && IsLeaf(enc, node, kind) && s[..next] == Print(node)
  {
    assert s[3] == 0x2D;
    var cs := RemarkShape(enc, s, 4, kind, next);
    Cut(s, 0, 4, next);
    assert s[0..4] == [0x3C, 0x21, 0x2D, 0x2D] && s[..next] == s[0..next];
    Assoc([0x3C, 0x21, 0x2D, 0x2D], Concat(cs), [0x2D, 0x2D, 0x3E]);
    node := Note(cs);
  }

  lemma OrderIs(enc: Encoding, s: seq<Byte>, kind: Kind, next: nat) returns (node: Node)
    requires Ascii(enc) && |s| > 1 && s[0] == 0x3C && s[1] == 0x3F && PiRun(enc, s, 2, 2, PiFirst) == Tok(kind, next)
    ensures next <= |s| && IsLeaf(enc, node, kind) && s[..next] == Print(node)
  {
    var o := OrderShape(enc, s, 2, kind, next);
    var open: seq<Byte>, end: seq<Byte> := [0x3C, 0x3F], [0x3F, 0x3E];
    Cut(s, 0, 2, next);
    assert s[0..2] == open && s[..next] == s[0..next];
    Group4(open, Concat(o.target), o.gap, Concat(o.text), end);
    Assoc(o.gap, Concat(o.text), end);
    node := Command(o);
  }

  lemma OpenIs(s: seq<Byte>, kind: Kind, next: nat)
    requires |s| > 2 && s[0] == 0x3C && s[1] == 0x21 && s[2] == 0x5B && CdataWord(s, 3) == Tok(kind, next)
    ensures kind == CdataOpen && next == 9 <= |s| && s[..9] == [0x3C, 0x21, 0x5B, 0x43, 0x44, 0x41, 0x54, 0x41, 0x5B]
  {
    Cut(s, 0, 3, 9);
    assert s[0..3] == [0x3C, 0x21, 0x5B] && s[..9] == s[0..9];
  }

  lemma LtShape(enc: Encoding, s: seq<Byte>, kind: Kind, next: nat) returns (sh: Shape)
    requires Ascii(enc) && s != [] && s[0] == 0x3C && LtRun(enc, s, 1) == Tok(kind, next)
    ensures next <= |s| && IsShape(enc, sh, kind, s[..next]) == true
  {
    TypeOf(enc, s[1]);
    if NmstrtStep(enc, s, 1).Skip? {
      var t, empty := TagShape(enc, s, kind, next);
      sh := OfTag(t, empty);
    } else if s[1] == 0x2F {
      var w := EndTagShape(enc, s, kind, next);
      sh := OfEnd(w);
    } else if s[1] == 0x3F {
      var node := OrderIs(enc, s, kind, next);
      sh := OfLeaf(node);
    } else {
      TypeOf(enc, s[2]);
      if s[2] == 0x2D {
        var node := RemarkIs(enc, s, kind, next);
        sh := OfLeaf(node);
      } else {
        OpenIs(s, kind, next);
        sh := OfOpen;
      }
    }
  }

  lemma MarkupShape(enc: Encoding, s: seq<Byte>, kind: Kind, next: nat) returns (sh: Shape)
    requires Ascii(enc) && ContentTok(enc, s) == Tok(kind, next) && (s[0] == 0x3C || s[0] == 0x26)
    ensures next <= |s| && IsShape(enc, sh, kind, s[..next]) == true
  {
    TypeOf(enc, s[0]);
    if s[0] == 0x3C {
      sh := LtShape(enc, s, kind, next);
    } else {
      var r := RefShape(enc, s, 1, kind, next);
      Cut(s, 0, 1, next);
      assert s[0..1] == [0x26] && s[..next] == s[0..next];
      Assoc([0x26], RefBody(r), [0x3B]);
      sh := OfLeaf(Reference(r));
    }
  }

  // ----- character data

  lemma StartsAt(s: seq<Byte>, j: nat)
    requires j <= |s|
    ensures Starts(s[j..], [0x5D, 0x3E]) <==> j + 2 <= |s| && s[j] == 0x5D && s[j + 1] == 0x3E
    ensures Starts(s[j..], [0x0A]) <==> j < |s| && s[j] == 0x0A
  {
    if j < |s| {
      assert s[j..][..1] == [s[j]];
      if j + 1 < |s| {
        assert s[j..][..2] == [s[j], s[j + 1]];
      }
    }
  }

  /** A character that the scan goes past is data. */
  lemma CharOfData(enc: Encoding, s: seq<Byte>, i: nat, j: nat)
    requires Ascii(enc) && i < |s| && DataStep(enc, s, i) == Go(j, ())
    ensures i < j <= |s| && Legal(enc, s[i..j])
    ensures var ch := s[i..j]; ch != [0x3C] && ch != [0x26] && ch != [0x0D] && ch != [0x0A]
    ensures s[i..j] == [0x5D] ==> !Starts(s[j..], [0x5D, 0x3E])
  {
    CharOf(enc, s, i);
    TypeOf(enc, s[i]);
    assert s[i..j][0] == s[i];
    StartsAt(s, j);
  }

  lemma PrefixStarts(x: seq<Byte>, y: seq<Byte>, z: seq<Byte>)
    ensures Starts(x, z) ==> Starts(x + y, z)
  {
    if |z| <= |x| {
      assert (x + y)[..|z|] == x[..|z|];
    }
  }

  /** A character in front of content. */
  lemma CharInFront(c: Client, s: seq<Byte>, i: nat, j: nat, ns: seq<Node>, tail: seq<Byte>)
    requires i < j <= |s| && Legal(c.enc, s[i..j]) && AreNodes(c, ns) && s[j..] == PrintAll(ns) + tail
    requires var ch := s[i..j]; ch != [0x3C] && ch != [0x26] && ch != [0x0D] && ch != [0x0A]
    requires s[i..j] == [0x5D] ==> !Starts(s[j..], [0x5D, 0x3E])
    ensures var all := [Chars(Single(s[i..j]))] + ns; AreNodes(c, all) && s[i..] == PrintAll(all) + tail
  {
    var n := Chars(Single(s[i..j]));
    PrefixStarts(PrintAll(ns), tail, [0x5D, 0x3E]);
    NodeInFront(c, n, ns, tail);
    Cut(s, i, j, |s|);
    assert s[i..] == s[i..|s|] && s[j..] == s[j..|s|];
  }

  lemma NodeInFront(c: Client, n: Node, ns: seq<Node>, tail: seq<Byte>)
    requires AreNodes(c, ns) == true && IsNode(c, n, PrintAll(ns)) == true
    ensures AreNodes(c, [n] + ns) == true && PrintAll([n] + ns) + tail == Print(n) + (PrintAll(ns) + tail)
  {
    assert ([n] + ns)[1..] == ns;
    Assoc(Print(n), PrintAll(ns), tail);
  }

  lemma {:induction false} DataInFront(c: Client, s: seq<Byte>, i: nat, n: nat, ns: seq<Node>, tail: seq<Byte>)
      returns (all: seq<Node>)
    requires Ascii(c.enc) && i <= n <= |s| && DataRun(c.enc, s, i) == Tok(DataChars, n)
    requires AreNodes(c, ns) && s[n..] == PrintAll(ns) + tail
    ensures AreNodes(c, all) && s[i..] == PrintAll(all) + tail && (Flat(ns) ==> Flat(all))
    decreases n - i
  {
    if i == n {
      all := ns;
    } else {
      var j := DataStep(c.enc, s, i).i;
      CharOfData(c.enc, s, i, j);
      var more := DataInFront(c, s, j, n, ns, tail);
      CharInFront(c, s, i, j, more, tail);
      all := [Chars(Single(s[i..j]))] + more;
    }
  }

  /** The first character of a data token. */
  lemma FirstOfData(enc: Encoding, s: seq<Byte>, n: nat) returns (j: nat)
    requires Ascii(enc) && ContentTok(enc, s) == Tok(DataChars, n) && s[0] != 0x3C && s[0] != 0x26
    ensures 0 < j <= n <= |s| && DataRun(enc, s, j) == Tok(DataChars, n) && Legal(enc, s[0..j])
    ensures var ch := s[0..j]; ch != [0x3C] && ch != [0x26] && ch != [0x0D] && ch != [0x0A]
    ensures s[0..j] == [0x5D] ==> !Starts(s[j..], [0x5D, 0x3E])
  {
    CharOf(enc, s, 0);
    TypeOf(enc, s[0]);
    var v := ValidStep(enc, s, 0);
    j := if v.Skip? then v.width else 1;
    assert s[0..j][0] == s[0];
    StartsAt(s, j);
  }

  lemma LineEndOf(enc: Encoding, s: seq<Byte>, n: nat)
    requires Ascii(enc) && ContentTok(enc, s) == Tok(DataNewline, n) && s[0] != 0x3C && s[0] != 0x26
    ensures n <= |s| && IsLineEnd(s[..n]) && (s[..n] == [0x0D] ==> !Starts(s[n..], [0x0A]))
  {
    TypeOf(enc, s[0]);
    if |s| > 1 {
      TypeOf(enc, s[1]);
    }
    StartsAt(s, n);
  }

  // ----- sections

  /** The parse of `s` reaches the end of the root element. */
  ghost predicate Reaches(c: Client, st: State, s: seq<Byte>, more: bool) {
    var o := Drive(c, st, s, more);
    o.error.None? && o.st.mode.Epilog?
  }

  lemma ReachesNext(c: Client, st: State, s: seq<Byte>, more: bool)
    requires Reaches(c, st, s, more) && !st.mode.Epilog?
    ensures var t := Scan(c.enc, st.mode, s);
            && t.Tok? && t.next <= |s|
            && var r := OnToken(c, st, t.kind, s[..t.next]);
               r.Next? && Reaches(c, r.st, s[t.next..], more)
  {
  }

  lemma DataFirst(enc: Encoding, d: Data, ds: seq<Data>, tail: seq<Byte>)
    requires GoodData(enc, d, PrintAllData(ds)) && GoodAllData(enc, ds)
    ensures GoodAllData(enc, [d] + ds) && PrintAllData([d] + ds) + tail == PrintData(d) + (PrintAllData(ds) + tail)
  {
    var all := [d] + ds;
    assert all[1..] == ds;
    Assoc(PrintData(d), PrintAllData(ds), tail);
    forall k | 0 <= k < |all|
      ensures GoodData(enc, all[k], PrintAllData(all[k + 1..]))
    {
      if k > 0 {
        assert all[k + 1..] == ds[k..] && all[k] == ds[k - 1];
        assert GoodData(enc, ds[k - 1], PrintAllData(ds[k - 1 + 1..]));
      }
    }
  }

  lemma CharOfCdata(enc: Encoding, s: seq<Byte>, i: nat, j: nat)
    requires Ascii(enc) && i < |s| && CdataStep(enc, s, i) == Go(j, ())
    ensures i < j <= |s| && Legal(enc, s[i..j])
    ensures var ch := s[i..j]; ch != [0x5D] && ch != [0x0D] && ch != [0x0A]
  {
    CharOf(enc, s, i);
    TypeOf(enc, s[i]);
    assert s[i..j][0] == s[i];
  }

  /** A character in front of the data of a section. */
  lemma CdataInFront(enc: Encoding, s: seq<Byte>, i: nat, j: nat, ds: seq<Data>, tail: seq<Byte>)
    requires i < j <= |s| && Legal(enc, s[i..j]) && GoodAllData(enc, ds) && s[j..] == PrintAllData(ds) + tail
    requires var ch := s[i..j]; ch != [0x0D] && ch != [0x0A] && (ch == [0x5D] ==> !Starts(s[j..], [0x5D, 0x3E]))
    ensures var all := [Single(s[i..j])] + ds; GoodAllData(enc, all) && s[i..] == PrintAllData(all) + tail
  {
    PrefixStarts(PrintAllData(ds), tail, [0x5D, 0x3E]);
    DataFirst(enc, Single(s[i..j]), ds, tail);
    Cut(s, i, j, |s|);
    assert s[i..] == s[i..|s|] && s[j..] == s[j..|s|];
  }

  lemma {:induction false} CdataRunInFront(enc: Encoding, s: seq<Byte>, i: nat, n: nat, ds: seq<Data>, tail: seq<Byte>)
      returns (all: seq<Data>)
    requires Ascii(enc) && i <= n <= |s| && CdataRun(enc, s, i) == Tok(DataChars, n)
    requires GoodAllData(enc, ds) && s[n..] == PrintAllData(ds) + tail
    ensures GoodAllData(enc, all) && s[i..] == PrintAllData(all) + tail
    decreases n - i
  {
    if i == n {
      all := ds;
    } else {
      var j := CdataStep(enc, s, i).i;
      CharOfCdata(enc, s, i, j);
      var more := CdataRunInFront(enc, s, j, n, ds, tail);
      CdataInFront(enc, s, i, j, more, tail);
      all := [Single(s[i..j])] + more;
    }
  }

  lemma FirstOfCdata(enc: Encoding, s: seq<Byte>, n: nat) returns (j: nat)
    requires Ascii(enc) && CdataTok(enc, s) == Tok(DataChars, n)
    ensures 0 < j <= n <= |s| && CdataRun(enc, s, j) == Tok(DataChars, n) && Legal(enc, s[0..j])
    ensures var ch := s[0..j]; ch != [0x0D] && ch != [0x0A] && (ch == [0x5D] ==> !Starts(s[j..], [0x5D, 0x3E]))
  {
    CharOf(enc, s, 0);
    TypeOf(enc, s[0]);
    var v := ValidStep(enc, s, 0);
    j := if v.Skip? then v.width else 1;
    assert s[0..j][0] == s[0];
    StartsAt(s, j);
  }

  lemma CdataLineEndOf(enc: Encoding, s: seq<Byte>, n: nat)
    requires Ascii(enc) && CdataTok(enc, s) == Tok(DataNewline, n)
    ensures n <= |s| && IsLineEnd(s[..n]) && (s[..n] == [0x0D] ==> !Starts(s[n..], [0x0A]))
  {
    TypeOf(enc, s[0]);
    if |s| > 1 {
      TypeOf(enc, s[1]);
    }
    StartsAt(s, n);
  }

  /** What kinds of token there are in a section. */
  lemma CdataKinds(enc: Encoding, s: seq<Byte>, kind: Kind, n: nat)
    requires Ascii(enc) && CdataTok(enc, s) == Tok(kind, n)
    ensures kind == DataChars || kind == DataNewline || (kind == CdataClose && n == 3 <= |s| && s[..3] == CLOSE)
  {
    TypeOf(enc, s[0]);
    if kind == CdataClose {
      assert s[..3] == [s[0], s[1], s[2]];
    }
  }

  /** A section that the parse comes out of. */
  lemma {:induction false} SectionIs(c: Client, open: seq<seq<Byte>>, s: seq<Byte>, more: bool)
      returns (ds: seq<Data>, rest: seq<Byte>)
    requires Ascii(c.enc) && Reaches(c, State(Cdata, open), s, more)
    ensures GoodAllData(c.enc, ds) && s == PrintAllData(ds) + (CLOSE + rest) && |rest| < |s|
    ensures Reaches(c, State(Content, open), rest, more)
    decreases |s|
  {
    ReachesNext(c, State(Cdata, open), s, more);
    var t := CdataTok(c.enc, s);
    CdataKinds(c.enc, s, t.kind, t.next);
    var n := t.next;
    Cut(s, 0, n, |s|);
    assert s == s[0..|s|] && s[n..] == s[n..|s|] && s[..n] == s[0..n];
    if t.kind == CdataClose {
      ds, rest := [], s[3..];
      assert PrintAllData(ds) + (CLOSE + rest) == CLOSE + rest;
    } else {
      var inner;
      inner, rest := SectionIs(c, open, s[n..], more);
      ds := SectionBefore(c.enc, s, t.kind, n, inner, CLOSE + rest);
    }
  }

  lemma SectionBefore(enc: Encoding, s: seq<Byte>, kind: Kind, n: nat, inner: seq<Data>, tail: seq<Byte>) returns (ds: seq<Data>)
    requires Ascii(enc) && CdataTok(enc, s) == Tok(kind, n) && (kind == DataChars || kind == DataNewline)
    requires GoodAllData(enc, inner) && s[n..] == PrintAllData(inner) + tail
    ensures GoodAllData(enc, ds) && s == PrintAllData(ds) + tail
  {
    if kind == DataChars {
      var j := FirstOfCdata(enc, s, n);
      var after := CdataRunInFront(enc, s, j, n, inner, tail);
      CdataInFront(enc, s, 0, j, after, tail);
      ds := [Single(s[0..j])] + after;
      assert s[0..] == s;
    } else {
      CdataLineEndOf(enc, s, n);
      PrefixStarts(PrintAllData(inner), tail, [0x0A]);
      DataFirst(enc, LineEnd(s[..n]), inner, tail);
      ds := [LineEnd(s[..n])] + inner;
      assert s == s[..n] + s[n..];
    }
  }

  // ----- trees

  lemma FlatMore(n: Node, ns: seq<Node>)
    requires !n.Element? && !n.Empty?
    ensures Flat(ns) ==> Flat([n] + ns)
  {
  }

  /** A node in front of content. */
  lemma NodeBefore(c: Client, s: seq<Byte>, n: nat, node: Node, ns: seq<Node>, tail: seq<Byte>) returns (all: seq<Node>)
    requires n <= |s| && s[..n] == Print(node) && !node.Element? && !node.Empty?
    requires AreNodes(c, ns) == true && IsNode(c, node, PrintAll(ns)) == true && s[n..] == PrintAll(ns) + tail
    ensures all == [node] + ns && AreNodes(c, all) == true && s == PrintAll(all) + tail && (Flat(ns) ==> Flat(all))
  {
    all := [node] + ns;
    NodeInFront(c, node, ns, tail);
    FlatMore(node, ns);
    assert s == s[..n] + s[n..];
  }

  /** A line end in front of content. */
  lemma LineEndIsNode(c: Client, e: seq<Byte>, ns: seq<Node>, tail: seq<Byte>)
    requires IsLineEnd(e) && (e == [0x0D] ==> !Starts(PrintAll(ns) + tail, [0x0A]))
    ensures IsNode(c, Chars(LineEnd(e)), PrintAll(ns)) == true
  {
    PrefixStarts(PrintAll(ns), tail, [0x0A]);
  }

  lemma CharsTurn(c: Client, s: seq<Byte>, n: nat, ns: seq<Node>, tail: seq<Byte>) returns (all: seq<Node>)
    requires Ascii(c.enc) && ContentTok(c.enc, s) == Tok(DataChars, n) && s[0] != 0x3C && s[0] != 0x26 && n <= |s|
    requires AreNodes(c, ns) == true && s[n..] == PrintAll(ns) + tail
    ensures AreNodes(c, all) == true && s == PrintAll(all) + tail && (Flat(ns) ==> Flat(all))
  {
    var j := FirstOfData(c.enc, s, n);
    var after := DataInFront(c, s, j, n, ns, tail);
    CharInFront(c, s, 0, j, after, tail);
    all := [Chars(Single(s[0..j]))] + after;
    assert s[0..] == s;
  }

  lemma LineEndTurn(c: Client, s: seq<Byte>, n: nat, ns: seq<Node>, tail: seq<Byte>) returns (all: seq<Node>)
    requires Ascii(c.enc) && ContentTok(c.enc, s) == Tok(DataNewline, n) && s[0] != 0x3C && s[0] != 0x26 && n <= |s|
    requires AreNodes(c, ns) == true && s[n..] == PrintAll(ns) + tail
    ensures AreNodes(c, all) == true && s == PrintAll(all) + tail && (Flat(ns) ==> Flat(all))
  {
    LineEndOf(c.enc, s, n);
    LineEndIsNode(c, s[..n], ns, tail);
    all := NodeBefore(c, s, n, Chars(LineEnd(s[..n])), ns, tail);
  }

  /** What stands in front of `ns`, one turn of the parse. */
  lemma DataTurn(c: Client, s: seq<Byte>, kind: Kind, n: nat, ns: seq<Node>, tail: seq<Byte>) returns (all: seq<Node>)
    requires Ascii(c.enc) && ContentTok(c.enc, s) == Tok(kind, n) && s[0] != 0x3C && s[0] != 0x26 && n <= |s|
    requires AreNodes(c, ns) && s[n..] == PrintAll(ns) + tail && (kind == DataChars || kind == DataNewline)
    ensures AreNodes(c, all) && s == PrintAll(all) + tail && (Flat(ns) ==> Flat(all))
  {
    if kind == DataChars {
      all := CharsTurn(c, s, n, ns, tail);
    } else {
      all := LineEndTurn(c, s, n, ns, tail);
    }
  }

  lemma DataKinds(enc: Encoding, s: seq<Byte>, kind: Kind, n: nat)
    requires Ascii(enc) && ContentTok(enc, s) == Tok(kind, n) && s[0] != 0x3C && s[0] != 0x26
    ensures kind == DataChars || kind == DataNewline
  {
    TypeOf(enc, s[0]);
  }

  /** A leaf that the client takes. */
  lemma LeafIsNode(c: Client, st: State, node: Node, kind: Kind, x: seq<Byte>)
    requires IsLeaf(c.enc, node, kind) && OnToken(c, st, kind, Print(node)).Next?
    ensures IsNode(c, node, x) && OnToken(c, st, kind, Print(node)).st == st
  {
  }

  /** The first turn on content that markup starts with, and what it leaves to read. */
  datatype Turned = Leaf(node: Node) | Opened(tag: Tag) | Closed(space: seq<Byte>) | Entered

  ghost predicate IsTurned(c: Client, open: seq<seq<Byte>>, s: seq<Byte>, more: bool, u: Turned, n: nat) {
    0 < n <= |s| &&
    match u
    case Leaf(node) =>
      (node.Empty? || node.Note? || node.Command? || node.Reference?) && IsNode(c, node, []) && s[..n] == Print(node) &&
      Reaches(c, State(if node.Empty? then Leave(open) else Content, open), s[n..], more)
    case Opened(tag) =>
      IsTag(c.enc, tag) && c.atts(PrintTag(tag, false)).None? && s[..n] == PrintTag(tag, false) &&
      Reaches(c, State(Content, open + [PrintName(tag.name)]), s[n..], more)
    case Closed(space) =>
      AllWhite(space) && open != [] && s[..n] == [0x3C, 0x2F] + open[|open| - 1] + space + [0x3E] &&
      Reaches(c, State(Leave(open[..|open| - 1]), open[..|open| - 1]), s[n..], more)
    case Entered =>
      s[..n] == [0x3C, 0x21, 0x5B, 0x43, 0x44, 0x41, 0x54, 0x41, 0x5B] && Reaches(c, State(Cdata, open), s[n..], more)
  }

  lemma MarkupTurn(c: Client, open: seq<seq<Byte>>, s: seq<Byte>, more: bool) returns (u: Turned, n: nat)
    requires Ascii(c.enc) && Reaches(c, State(Content, open), s, more) && s != [] && (s[0] == 0x3C || s[0] == 0x26)
    ensures IsTurned(c, open, s, more, u, n) == true
  {
    var st := State(Content, open);
    ReachesNext(c, st, s, more);
    var t := ContentTok(c.enc, s);
    n := t.next;
    var sh := MarkupShape(c.enc, s, t.kind, n);
    match sh
    case OfTag(tag, empty) =>
      TagRawName(c.enc, tag, empty);
      u := if empty then Leaf(Empty(tag)) else Opened(tag);
    case OfEnd(space) => u := Closed(space);
    case OfOpen => u := Entered;
    case OfLeaf(node) =>
      LeafIsNode(c, st, node, t.kind, []);
      u := Leaf(node);
  }

  /** Content and the end tag of its element. */
  ghost predicate IsContent(c: Client, outer: seq<seq<Byte>>, name: Name, s: seq<Byte>, more: bool,
                            ns: seq<Node>, space: seq<Byte>, rest: seq<Byte>)
  {
    s == PrintAll(ns) + (PrintEnd(name, space) + rest) && AreNodes(c, ns) && AllWhite(space) && |rest| < |s| &&
    Reaches(c, State(Leave(outer), outer), rest, more)
  }

  lemma ContentBefore(c: Client, outer: seq<seq<Byte>>, name: Name, s: seq<Byte>, n: nat, more: bool, node: Node,
                      ns: seq<Node>, space: seq<Byte>, rest: seq<Byte>)
    requires n <= |s| && s[..n] == Print(node) && (forall x :: IsNode(c, node, x))
    requires IsContent(c, outer, name, s[n..], more, ns, space, rest)
    ensures IsContent(c, outer, name, s, more, [node] + ns, space, rest) == true
  {
    assert IsNode(c, node, PrintAll(ns));
    NodeInFront(c, node, ns, PrintEnd(name, space) + rest);
    assert s == s[..n] + s[n..];
  }

  lemma NoData(c: Client, node: Node)
    requires !node.Chars? && IsNode(c, node, [])
    ensures forall x :: IsNode(c, node, x)
  {
  }

  lemma EndedContent(c: Client, outer: seq<seq<Byte>>, name: Name, s: seq<Byte>, more: bool, space: seq<Byte>, n: nat)
    requires IsTurned(c, outer + [PrintName(name)], s, more, Closed(space), n)
    ensures IsContent(c, outer, name, s, more, [], space, s[n..]) == true
  {
    var open := outer + [PrintName(name)];
    assert open[|open| - 1] == PrintName(name) && open[..|open| - 1] == outer;
    assert s == s[..n] + s[n..];
    assert PrintAll([]) + (PrintEnd(name, space) + s[n..]) == PrintEnd(name, space) + s[n..];
  }

  lemma DataContent(c: Client, outer: seq<seq<Byte>>, name: Name, s: seq<Byte>, kind: Kind, n: nat, more: bool,
                    ns: seq<Node>, space: seq<Byte>, rest: seq<Byte>) returns (all: seq<Node>)
    requires Ascii(c.enc) && ContentTok(c.enc, s) == Tok(kind, n) && s[0] != 0x3C && s[0] != 0x26 && n <= |s|
    requires IsContent(c, outer, name, s[n..], more, ns, space, rest)
    ensures IsContent(c, outer, name, s, more, all, space, rest) == true
  {
    DataKinds(c.enc, s, kind, n);
    all := DataTurn(c, s, kind, n, ns, PrintEnd(name, space) + rest);
  }

  lemma SectionContent(c: Client, open: seq<seq<Byte>>, s: seq<Byte>, n: nat, more: bool)
      returns (node: Node, k: nat)
    requires Ascii(c.enc) && IsTurned(c, open, s, more, Entered, n)
    ensures 0 < k <= |s| && node.Section? && IsNode(c, node, []) && s[..k] == Print(node)
    ensures Reaches(c, State(Content, open), s[k..], more)
  {
    var ds, rest := SectionIs(c, open, s[n..], more);
    node := Section(ds);
    k := |s| - |rest|;
    var first := s[..n];
    assert s == first + s[n..];
    Assoc(first, PrintAllData(ds), CLOSE + rest);
    Assoc(first + PrintAllData(ds), CLOSE, rest);
    assert s == Print(node) + rest;
    assert s[..k] == Print(node) && s[k..] == rest;
  }

  /** The content of an element that the parse comes out of. */
  lemma {:induction false} ContentIs(c: Client, outer: seq<seq<Byte>>, name: Name, s: seq<Byte>, more: bool)
      returns (ns: seq<Node>, space: seq<Byte>, rest: seq<Byte>)
    requires Ascii(c.enc) && IsName(c.enc, name) && Reaches(c, State(Content, outer + [PrintName(name)]), s, more)
    ensures IsContent(c, outer, name, s, more, ns, space, rest) == true
    decreases |s|
  {
    var open := outer + [PrintName(name)];
    ReachesNext(c, State(Content, open), s, more);
    if s[0] != 0x3C && s[0] != 0x26 {
      var t := ContentTok(c.enc, s);
      DataKinds(c.enc, s, t.kind, t.next);
      ns, space, rest := ContentIs(c, outer, name, s[t.next..], more);
      ns := DataContent(c, outer, name, s, t.kind, t.next, more, ns, space, rest);
    } else {
      var u, n := MarkupTurn(c, open, s, more);
      if u.Closed? {
        EndedContent(c, outer, name, s, more, u.space, n);
        ns, space, rest := [], u.space, s[n..];
      } else {
        var node, k := NodeOf(c, open, s, more, u, n);
        ns, space, rest := ContentIs(c, outer, name, s[k..], more);
        NoData(c, node);
        ContentBefore(c, outer, name, s, k, more, node, ns, space, rest);
        ns := [node] + ns;
      }
    }
  }

  /** The node that starts with markup. */
  lemma {:induction false} NodeOf(c: Client, open: seq<seq<Byte>>, s: seq<Byte>, more: bool, u: Turned, n: nat)
      returns (node: Node, k: nat)
    requires Ascii(c.enc) && IsTurned(c, open, s, more, u, n) && !u.Closed?
    ensures 0 < k <= |s| && s[..k] == Print(node) && !node.Chars? && IsNode(c, node, []) == true
    ensures Reaches(c, State(if node.Element? || node.Empty? then Leave(open) else Content, open), s[k..], more)
    decreases |s|, 0
  {
    match u
    case Leaf(leaf) => node, k := leaf, n;
    case Entered => node, k := SectionContent(c, open, s, n, more);
    case Opened(tag) =>
      var kids, space, rest := ContentIs(c, open, tag.name, s[n..], more);
      node, k := ElementOf(c, open, tag, s, n, more, kids, space, rest);
  }

  lemma ElementOf(c: Client, open: seq<seq<Byte>>, tag: Tag, s: seq<Byte>, n: nat, more: bool,
                  kids: seq<Node>, space: seq<Byte>, rest: seq<Byte>) returns (node: Node, k: nat)
    requires IsTurned(c, open, s, more, Opened(tag), n) && IsContent(c, open, tag.name, s[n..], more, kids, space, rest)
    ensures 0 < k <= |s| && s[..k] == Print(node) && node.Element? && IsNode(c, node, []) == true
    ensures Reaches(c, State(Leave(open), open), s[k..], more)
  {
    node := Element(tag, kids, space);
    k := |s| - |rest|;
    var head, body, end := PrintTag(tag, false), PrintAll(kids), PrintEnd(tag.name, space);
    assert s == s[..n] + s[n..];
    Assoc(head, body, end + rest);
    Assoc(head + body, end, rest);
    assert s == Print(node) + rest;
    assert s[..k] == Print(node) && s[k..] == rest;
  }

  // ----- documents

  /** A text of one element, of leaves in front of it and of anything behind it. */
  ghost predicate IsDocument(c: Client, s: seq<Byte>, pre: seq<Node>, root: Node, rest: seq<Byte>) {
    && s == PrintAll(pre) + (Print(root) + rest)
    && AreNodes(c, pre) == true && Flat(pre)
    && (root.Element? || root.Empty?) && IsNode(c, root, []) == true
  }

  lemma DocumentBefore(c: Client, s: seq<Byte>, k: nat, node: Node, pre: seq<Node>, root: Node, rest: seq<Byte>)
    requires k <= |s| && s[..k] == Print(node) && (forall x :: IsNode(c, node, x)) && !node.Element? && !node.Empty?
    requires IsDocument(c, s[k..], pre, root, rest)
    ensures IsDocument(c, s, [node] + pre, root, rest) == true
  {
    assert IsNode(c, node, PrintAll(pre)) == true;
    var all := NodeBefore(c, s, k, node, pre, Print(root) + rest);
  }

  /** A text that is parsed to the end of the root is a document. */
  lemma {:induction false} DocumentIs(c: Client, s: seq<Byte>, more: bool) returns (pre: seq<Node>, root: Node, rest: seq<Byte>)
    requires Ascii(c.enc) && Reaches(c, State(Content, []), s, more)
    ensures IsDocument(c, s, pre, root, rest) == true
    decreases |s|
  {
    ReachesNext(c, State(Content, []), s, more);
    if s[0] != 0x3C && s[0] != 0x26 {
      var t := ContentTok(c.enc, s);
      DataKinds(c.enc, s, t.kind, t.next);
      pre, root, rest := DocumentIs(c, s[t.next..], more);
      pre := DataTurn(c, s, t.kind, t.next, pre, Print(root) + rest);
    } else {
      var u, n := MarkupTurn(c, [], s, more);
      var node, k := NodeOf(c, [], s, more, u, n);
      if node.Element? || node.Empty? {
        pre, root, rest := [], node, s[k..];
        assert s == s[..k] + s[k..];
        assert PrintAll(pre) + (Print(root) + rest) == Print(root) + rest;
      } else {
        pre, root, rest := DocumentIs(c, s[k..], more);
        NoData(c, node);
        DocumentBefore(c, s, k, node, pre, root, rest);
        pre := [node] + pre;
      }
    }
  }

  lemma TagStarts(n: Node, rest: seq<Byte>)
    requires n.Element? || n.Empty?
    ensures |Print(n) + rest| >= 2 && (Print(n) + rest)[0] == 0x3C
  {
  }

  /** A document is read to the end of its root, and reported as what it is. */
  lemma DocumentRead(c: Client, s: seq<Byte>, pre: seq<Node>, root: Node, rest: seq<Byte>, more: bool)
    requires Ascii(c.enc) && IsDocument(c, s, pre, root, rest)
    ensures var o := Drive(c, State(Content, []), s, more);
            o.error.None? && o.st == State(Epilog, []) && o.left == rest &&
            Atoms(o.events) == Atoms(AllCalls(c, pre) + Calls(c, root))
  {
    var st, tail := State(Content, []), Print(root) + rest;
    TagStarts(root, rest);
    NodesRead(c, [], pre, tail, more);
    DocumentReads(c, root, rest, more);
    var o := Drive(c, st, tail, more);
    AtomsConcat(AllCalls(c, pre), o.events);
    AtomsConcat(AllCalls(c, pre), Calls(c, root));
  }

  /** The parse of content succeeds exactly on documents. */
  lemma AcceptsExactly(c: Client, s: seq<Byte>)
    requires Ascii(c.enc)
    ensures Drive(c, State(Content, []), s, false).error.None? <==>
            exists pre, root, rest :: IsDocument(c, s, pre, root, rest)
    ensures forall pre, root, rest | IsDocument(c, s, pre, root, rest) ::
              var o := Drive(c, State(Content, []), s, false);
              o.st == State(Epilog, []) && o.left == rest && Atoms(o.events) == Atoms(AllCalls(c, pre) + Calls(c, root))
  {
    if Drive(c, State(Content, []), s, false).error.None? {
      SuccessIsEpilog(c, State(Content, []), s);
      var pre, root, rest := DocumentIs(c, s, false);
    }
    forall pre, root, rest | IsDocument(c, s, pre, root, rest)
      ensures var o := Drive(c, State(Content, []), s, false);
              o.error.None? && o.st == State(Epilog, []) && o.left == rest &&
              Atoms(o.events) == Atoms(AllCalls(c, pre) + Calls(c, root))
    {
      DocumentRead(c, s, pre, root, rest, false);
    }
  }

  /** And however the text is cut into buffers. */
  lemma BuffersExactly(c: Client, chunks: seq<seq<Byte>>)
    requires Ascii(c.enc) && chunks != []
    ensures Feed(c, State(Content, []), [], chunks).error.None? <==>
            exists pre, root, rest :: IsDocument(c, Concat(chunks), pre, root, rest)
    ensures forall pre, root, rest | IsDocument(c, Concat(chunks), pre, root, rest) ::
              Atoms(Feed(c, State(Content, []), [], chunks).events) == Atoms(AllCalls(c, pre) + Calls(c, root))
  {
    BufferIndependence(c, State(Content, []), chunks);
    AcceptsExactly(c, Concat(chunks));
  }
}
