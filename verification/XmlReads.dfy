/** Well-formed content is read as what it is: the parse loop of element content, on the
    text of a tree, makes exactly the calls of that tree (expat/xmlparse.c:2121-2573). */
module XmlReads {
  import opened Wrappers
  import opened Endian
  import opened XmlBytes
  import opened XmlScan
  import opened XmlContent
  import opened XmlPrint
  import opened XmlMarkup

  lemma SameRefl(o: Out)
    ensures Same(o, o)
  {
  }

  lemma PrependTwice(a: seq<Event>, b: seq<Event>, o: Out)
    ensures Prepend(a, Prepend(b, o)) == Prepend(a + b, o)
  {
    assert a + (b + o.events) == (a + b) + o.events;
  }

  /** First the events `e`, then what `x` comes to. */
  lemma SameThen(e: seq<Event>, f: seq<Event>, x: Out, y: Out, z: Out)
    requires Same(x, Prepend(e, y)) && Same(y, Prepend(f, z))
    ensures Same(x, Prepend(e + f, z))
  {
    SamePrepend(e, e, y, Prepend(f, z));
    PrependTwice(e, f, z);
    SameTrans(x, Prepend(e, y), Prepend(e, Prepend(f, z)));
  }

  /** A token other than data is the first turn on every text that starts with it. */
  lemma TokenTurn(c: Client, open: seq<seq<Byte>>, tok: seq<Byte>, kind: Kind, rest: seq<Byte>)
    requires ContentTok(c.enc, tok) == Tok(kind, |tok|) && !kind.DataChars?
    ensures OneTurn(c, State(Content, open), tok + rest) == OnToken(c, State(Content, open), kind, tok)
  {
    ContentTokStable(c.enc, tok, tok + rest);
    assert (tok + rest)[..|tok|] == tok;
  }

  lemma TokenDrive(c: Client, open: seq<seq<Byte>>, tok: seq<Byte>, kind: Kind, rest: seq<Byte>, more: bool)
    requires ContentTok(c.enc, tok) == Tok(kind, |tok|) && !kind.DataChars?
    requires OnToken(c, State(Content, open), kind, tok).Next?
    ensures var r := OnToken(c, State(Content, open), kind, tok);
            Drive(c, State(Content, open), tok + rest, more) == Prepend(r.events, Drive(c, r.st, rest, more))
  {
    TokenTurn(c, open, tok, kind, rest);
    assert (tok + rest)[|tok|..] == rest;
  }

  // ----- character data

  /** A character that is data, in front of `r`. */
  lemma CharReads(c: Client, open: seq<seq<Byte>>, ch: seq<Byte>, r: seq<Byte>, more: bool)
    requires Ascii(c.enc) && Legal(c.enc, ch) && ch != [0x3C] && ch != [0x26] && ch != [0x0D] && ch != [0x0A]
    requires ch == [0x5D] ==> |r| >= 2 && !Starts(r, [0x5D, 0x3E])
    ensures var st := State(Content, open);
            Same(Drive(c, st, ch + r, more), Prepend([Text(ch)], Drive(c, st, r, more)))
  {
    var st, u, n := State(Content, open), ch + r, |ch|;
    FirstData(c.enc, ch, r);
    DataRestart(c.enc, u, n, r);
    DataThen(c, st, u, ch, r, more);
  }

  lemma FirstData(enc: Encoding, ch: seq<Byte>, r: seq<Byte>)
    requires Ascii(enc) && Legal(enc, ch) && ch != [0x3C] && ch != [0x26] && ch != [0x0D] && ch != [0x0A]
    requires ch == [0x5D] ==> |r| >= 2 && !Starts(r, [0x5D, 0x3E])
    ensures ContentTok(enc, ch + r) == DataRun(enc, ch + r, |ch|)
  {
    var u := ch + r;
    Whole(u);
    CharIs(enc, u, 0, ch, r);
    OneByte(enc, ch, 0x3C);
    OneByte(enc, ch, 0x26);
    OneByte(enc, ch, 0x0D);
    OneByte(enc, ch, 0x0A);
    OneByte(enc, ch, 0x5D);
    TypeOf(enc, u[0]);
    if ch == [0x5D] {
      assert u[1] == r[0] && u[2] == r[1] && r[..2] == [r[0], r[1]];
    }
  }

  /** The data that goes on behind a character is another token, or the same one. */
  lemma DataThen(c: Client, st: State, u: seq<Byte>, ch: seq<Byte>, r: seq<Byte>, more: bool)
    requires !st.mode.Epilog? && u == ch + r && ch != []
    requires Scan(c.enc, st.mode, u) == Tok(DataChars, |ch|) ||
             (Scan(c.enc, st.mode, u) == Shift(Scan(c.enc, st.mode, r), |ch|) &&
              (IsData(Scan(c.enc, st.mode, u)) || Scan(c.enc, st.mode, u).Invalid?))
    ensures Same(Drive(c, st, u, more), Prepend([Text(ch)], Drive(c, st, r, more)))
  {
    assert u[..|ch|] == ch && u[|ch|..] == r;
    if Scan(c.enc, st.mode, u) == Tok(DataChars, |ch|) {
      DriveData(c, st, u, |ch|, more);
    } else {
      DataContinues(c, st, u, |ch|, r, more);
    }
  }

  lemma LineEndTok(enc: Encoding, e: seq<Byte>, r: seq<Byte>)
    requires Ascii(enc) && IsLineEnd(e) && (e == [0x0D] ==> r != [] && r[0] != 0x0A)
    ensures ContentTok(enc, e + r) == Tok(DataNewline, |e|)
  {
    var u := e + r;
    TypeOf(enc, u[0]);
    if |u| > 1 {
      TypeOf(enc, u[1]);
    }
  }

  /** A line end in front of `r`, whichever form it has. */
  lemma LineEndReads(c: Client, open: seq<seq<Byte>>, e: seq<Byte>, r: seq<Byte>, more: bool)
    requires Ascii(c.enc) && IsLineEnd(e) && (e == [0x0D] ==> r != [] && r[0] != 0x0A)
    ensures var st := State(Content, open);
            Drive(c, st, e + r, more) == Prepend([Text([0x0A])], Drive(c, st, r, more))
  {
    LineEndTok(c.enc, e, r);
    assert (e + r)[|e|..] == r;
  }

  /** Text that starts no `]]>` and no line feed does not do so in front of a tag. */
  lemma InFront(x: seq<Byte>, tail: seq<Byte>)
    requires |tail| >= 2 && tail[0] == 0x3C
    ensures |x + tail| >= 2
    ensures !Starts(x, [0x5D, 0x3E]) ==> !Starts(x + tail, [0x5D, 0x3E])
    ensures !Starts(x, [0x0A]) ==> (x + tail)[0] != 0x0A
  {
    var s := x + tail;
    if Starts(s, [0x5D, 0x3E]) {
      assert s[0] == s[..2][0] == 0x5D && s[1] == s[..2][1] == 0x3E;
      assert |x| >= 2 && x[..2] == [x[0], x[1]];
    }
    if s[0] == 0x0A {
      assert x[..1] == [x[0]];
    }
  }

  lemma DataReads(c: Client, open: seq<seq<Byte>>, d: Data, x: seq<Byte>, tail: seq<Byte>, more: bool)
    requires Ascii(c.enc) && GoodData(c.enc, d, x) && d != Single([0x3C]) && d != Single([0x26])
    requires |tail| >= 2 && tail[0] == 0x3C
    ensures var st := State(Content, open);
            Same(Drive(c, st, PrintData(d) + (x + tail), more), Prepend(DataCalls(d), Drive(c, st, x + tail, more)))
  {
    InFront(x, tail);
    match d
    case Single(ch) => CharReads(c, open, ch, x + tail, more);
    case LineEnd(e) => LineEndReads(c, open, e, x + tail, more);
  }

  // ----- sections

  lemma FirstCdata(enc: Encoding, ch: seq<Byte>, r: seq<Byte>)
    requires Ascii(enc) && Legal(enc, ch) && ch != [0x0D] && ch != [0x0A]
    requires ch == [0x5D] ==> |r| >= 2 && !Starts(r, [0x5D, 0x3E])
    ensures CdataTok(enc, ch + r) == CdataRun(enc, ch + r, |ch|)
  {
    var u := ch + r;
    Whole(u);
    CharIs(enc, u, 0, ch, r);
    OneByte(enc, ch, 0x0D);
    OneByte(enc, ch, 0x0A);
    OneByte(enc, ch, 0x5D);
    TypeOf(enc, u[0]);
    if ch == [0x5D] {
      assert u[1] == r[0] && u[2] == r[1] && r[..2] == [r[0], r[1]];
    }
  }

  lemma CdataCharReads(c: Client, open: seq<seq<Byte>>, ch: seq<Byte>, r: seq<Byte>, more: bool)
    requires Ascii(c.enc) && Legal(c.enc, ch) && ch != [0x0D] && ch != [0x0A]
    requires ch == [0x5D] ==> |r| >= 2 && !Starts(r, [0x5D, 0x3E])
    ensures var st := State(Cdata, open);
            Same(Drive(c, st, ch + r, more), Prepend([Text(ch)], Drive(c, st, r, more)))
  {
    var st, u := State(Cdata, open), ch + r;
    FirstCdata(c.enc, ch, r);
    CdataRestart(c.enc, u, |ch|, r);
    DataThen(c, st, u, ch, r, more);
  }

  lemma CdataLineEndTok(enc: Encoding, e: seq<Byte>, r: seq<Byte>)
    requires Ascii(enc) && IsLineEnd(e) && (e == [0x0D] ==> r != [] && r[0] != 0x0A)
    ensures CdataTok(enc, e + r) == Tok(DataNewline, |e|)
  {
    var u := e + r;
    TypeOf(enc, u[0]);
    if |u| > 1 {
      TypeOf(enc, u[1]);
    }
  }

  /** A line end in front of `r`, whichever form it has. */
  lemma CdataLineEndReads(c: Client, open: seq<seq<Byte>>, e: seq<Byte>, r: seq<Byte>, more: bool)
    requires Ascii(c.enc) && IsLineEnd(e) && (e == [0x0D] ==> r != [] && r[0] != 0x0A)
    ensures var st := State(Cdata, open);
            Drive(c, st, e + r, more) == Prepend([Text([0x0A])], Drive(c, st, r, more))
  {
    CdataLineEndTok(c.enc, e, r);
    assert (e + r)[|e|..] == r;
  }

  const CLOSE: seq<Byte> := [0x5D, 0x5D, 0x3E]

  /** The same in front of the end of a section. */
  lemma InSection(x: seq<Byte>, rest: seq<Byte>)
    ensures var s := x + (CLOSE + rest);
            && |s| >= 2
            && (!Starts(x, [0x5D, 0x3E]) ==> !Starts(s, [0x5D, 0x3E]))
            && (!Starts(x, [0x0A]) ==> s[0] != 0x0A)
  {
    var s := x + (CLOSE + rest);
    if Starts(s, [0x5D, 0x3E]) {
      assert s[0] == s[..2][0] == 0x5D && s[1] == s[..2][1] == 0x3E;
      assert |x| >= 2 && x[..2] == [x[0], x[1]];
    }
    if s[0] == 0x0A {
      assert x[..1] == [x[0]];
    }
  }

  lemma SectionFirst(enc: Encoding, ds: seq<Data>)
    requires GoodAllData(enc, ds) && ds != []
    ensures GoodData(enc, ds[0], PrintAllData(ds[1..])) == true && GoodAllData(enc, ds[1..])
  {
    assert GoodData(enc, ds[0], PrintAllData(ds[0 + 1..]));
    forall k | 0 <= k < |ds[1..]|
      ensures GoodData(enc, ds[1..][k], PrintAllData(ds[1..][k + 1..]))
    {
      assert ds[1..][k + 1..] == ds[k + 1 + 1..] && ds[1..][k] == ds[k + 1];
    }
  }

  lemma CdataReads(c: Client, open: seq<seq<Byte>>, d: Data, x: seq<Byte>, rest: seq<Byte>, more: bool)
    requires Ascii(c.enc) && GoodData(c.enc, d, x)
    ensures var st, r := State(Cdata, open), x + (CLOSE + rest);
            Same(Drive(c, st, PrintData(d) + r, more), Prepend(DataCalls(d), Drive(c, st, r, more)))
  {
    InSection(x, rest);
    match d
    case Single(ch) => CdataCharReads(c, open, ch, x + (CLOSE + rest), more);
    case LineEnd(e) => CdataLineEndReads(c, open, e, x + (CLOSE + rest), more);
  }

  lemma {:induction false} AllDataReads(c: Client, open: seq<seq<Byte>>, ds: seq<Data>, rest: seq<Byte>, more: bool)
    requires Ascii(c.enc) && GoodAllData(c.enc, ds)
    ensures var st, r := State(Cdata, open), CLOSE + rest;
            Same(Drive(c, st, PrintAllData(ds) + r, more), Prepend(AllDataCalls(ds), Drive(c, st, r, more)))
    decreases |ds|
  {
    var st, r := State(Cdata, open), CLOSE + rest;
    if ds == [] {
      assert PrintAllData(ds) + r == r;
      assert [] + Drive(c, st, r, more).events == Drive(c, st, r, more).events;
      SameRefl(Drive(c, st, r, more));
    } else {
      SectionFirst(c.enc, ds);
      var x := PrintAllData(ds[1..]);
      CdataReads(c, open, ds[0], x, rest, more);
      AllDataReads(c, open, ds[1..], rest, more);
      Assoc(PrintData(ds[0]), x, r);
      SameThen(DataCalls(ds[0]), AllDataCalls(ds[1..]), Drive(c, st, PrintAllData(ds) + r, more),
        Drive(c, st, x + r, more), Drive(c, st, r, more));
    }
  }

  lemma CloseReads(c: Client, open: seq<seq<Byte>>, rest: seq<Byte>, more: bool)
    requires Ascii(c.enc)
    ensures Drive(c, State(Cdata, open), CLOSE + rest, more) ==
            Prepend([CdataEnd], Drive(c, State(Content, open), rest, more))
  {
    var u := CLOSE + rest;
    TypeOf(c.enc, u[0]);
    assert u[0] == 0x5D && u[1] == 0x5D && u[2] == 0x3E && u[3..] == rest;
    assert CdataTok(c.enc, u) == Tok(CdataClose, 3);
  }

  lemma SectionReads(c: Client, open: seq<seq<Byte>>, ds: seq<Data>, rest: seq<Byte>, more: bool)
    requires Ascii(c.enc) && GoodAllData(c.enc, ds)
    ensures var st := State(Content, open);
            Same(Drive(c, st, PrintSection(ds) + rest, more),
              Prepend([CdataStart] + AllDataCalls(ds) + [CdataEnd], Drive(c, st, rest, more)))
  {
    var st, inner := State(Content, open), State(Cdata, open);
    var first: seq<Byte> := [0x3C, 0x21, 0x5B, 0x43, 0x44, 0x41, 0x54, 0x41, 0x5B];
    var body := PrintAllData(ds);
    PrintedOpen(c.enc);
    Assoc(first + body, CLOSE, rest);
    Assoc(first, body, CLOSE + rest);
    TokenDrive(c, open, first, CdataOpen, body + (CLOSE + rest), more);
    AllDataReads(c, open, ds, rest, more);
    CloseReads(c, open, rest, more);
    var x, y, z := Drive(c, st, PrintSection(ds) + rest, more), Drive(c, inner, body + (CLOSE + rest), more),
      Drive(c, inner, CLOSE + rest, more);
    SameRefl(x);
    SameRefl(z);
    SameThen([CdataStart], AllDataCalls(ds), x, y, z);
    SameThen([CdataStart] + AllDataCalls(ds), [CdataEnd], x, z, Drive(c, st, rest, more));
  }

  // ----- trees

  lemma StartReads(c: Client, open: seq<seq<Byte>>, t: Tag, empty: bool, rest: seq<Byte>, more: bool)
    requires Ascii(c.enc) && IsTag(c.enc, t) && c.atts(PrintTag(t, empty)).None?
    ensures var name := PrintName(t.name);
            Drive(c, State(Content, open), PrintTag(t, empty) + rest, more) ==
            if empty then
              Prepend([Start(PrintTag(t, true)), End(name)], Drive(c, State(Leave(open), open), rest, more))
            else Prepend([Start(PrintTag(t, false))], Drive(c, State(Content, open + [name]), rest, more))
  {
    PrintedTag(c.enc, t, empty);
    TagRawName(c.enc, t, empty);
    TokenDrive(c, open, PrintTag(t, empty), TagKind(t, empty), rest, more);
  }

  lemma EndReads(c: Client, open: seq<seq<Byte>>, n: Name, space: seq<Byte>, rest: seq<Byte>, more: bool)
    requires Ascii(c.enc) && IsName(c.enc, n) && AllWhite(space)
    ensures Drive(c, State(Content, open + [PrintName(n)]), PrintEnd(n, space) + rest, more) ==
            Prepend([End(PrintName(n))], Drive(c, State(Leave(open), open), rest, more))
  {
    var inner := open + [PrintName(n)];
    PrintedEnd(c.enc, n, space);
    EndRawName(c.enc, n, space);
    assert inner[..|inner| - 1] == open && inner[|inner| - 1] == PrintName(n);
    TokenDrive(c, inner, PrintEnd(n, space), EndTag, rest, more);
  }

  lemma EndStarts(n: Name, space: seq<Byte>, rest: seq<Byte>)
    ensures var tail := PrintEnd(n, space) + rest; |tail| >= 2 && tail[0] == 0x3C
  {
  }

  /** An element: its tag, its children, its end tag. */
  lemma {:induction false} ElementReads(c: Client, open: seq<seq<Byte>>, n: Node, rest: seq<Byte>, more: bool)
    requires Ascii(c.enc) && n.Element? && IsNode(c, n, [])
    ensures Same(Drive(c, State(Content, open), Print(n) + rest, more),
              Prepend(Calls(c, n), Drive(c, State(Leave(open), open), rest, more)))
    decreases n, 0
  {
    var name := PrintName(n.tag.name);
    var inner, end := open + [name], PrintEnd(n.tag.name, n.space) + rest;
    var head, body := PrintTag(n.tag, false), PrintAll(n.children);
    EndStarts(n.tag.name, n.space, rest);
    StartReads(c, open, n.tag, false, body + end, more);
    NodesRead(c, inner, n.children, end, more);
    EndReads(c, open, n.tag.name, n.space, rest, more);
    Assoc(head + body, PrintEnd(n.tag.name, n.space), rest);
    Assoc(head, body, end);
    var x, y, z := Drive(c, State(Content, open), Print(n) + rest, more), Drive(c, State(Content, inner), body + end, more),
      Drive(c, State(Content, inner), end, more);
    SameRefl(x);
    SameRefl(z);
    SameThen([Start(head)], AllCalls(c, n.children), x, y, z);
    SameThen([Start(head)] + AllCalls(c, n.children), [End(name)], x, z, Drive(c, State(Leave(open), open), rest, more));
  }

  lemma LeafReads(c: Client, open: seq<seq<Byte>>, n: Node, rest: seq<Byte>, more: bool)
    requires Ascii(c.enc) && (n.Empty? || n.Note? || n.Command? || n.Reference?) && IsNode(c, n, [])
    requires n.Empty? ==> open != []
    ensures var st := State(Content, open);
            Drive(c, st, Print(n) + rest, more) == Prepend(Calls(c, n), Drive(c, st, rest, more))
  {
    match n
    case Empty(tag) => StartReads(c, open, tag, true, rest, more);
    case Note(note) =>
      PrintedRemark(c.enc, note);
      TokenDrive(c, open, Print(n), Comment, rest, more);
    case Command(order) =>
      PrintedOrder(c.enc, order);
      TokenDrive(c, open, Print(n), Pi, rest, more);
    case Reference(ref) =>
      PrintedRef(c.enc, ref);
      TokenDrive(c, open, Print(n), RefKind(ref), rest, more);
  }

  lemma {:induction false} NodeReads(c: Client, open: seq<seq<Byte>>, n: Node, x: seq<Byte>, tail: seq<Byte>, more: bool)
    requires Ascii(c.enc) && IsNode(c, n, x) && |tail| >= 2 && tail[0] == 0x3C
    requires n.Element? || n.Empty? ==> open != []
    ensures var st := State(Content, open);
            Same(Drive(c, st, Print(n) + (x + tail), more), Prepend(Calls(c, n), Drive(c, st, x + tail, more)))
    decreases n, 1
  {
    match n
    case Element(_, _, _) => ElementReads(c, open, n, x + tail, more);
    case Chars(d) => DataReads(c, open, d, x, tail, more);
    case Section(ds) => SectionReads(c, open, ds, x + tail, more);
    case _ =>
      LeafReads(c, open, n, x + tail, more);
      SameRefl(Drive(c, State(Content, open), Print(n) + (x + tail), more));
  }

  predicate Flat(ns: seq<Node>) { forall k | 0 <= k < |ns| :: !ns[k].Element? && !ns[k].Empty? }

  lemma {:induction false} NodesRead(c: Client, open: seq<seq<Byte>>, ns: seq<Node>, tail: seq<Byte>, more: bool)
    requires Ascii(c.enc) && AreNodes(c, ns) && (open != [] || Flat(ns)) && |tail| >= 2 && tail[0] == 0x3C
    ensures var st := State(Content, open);
            Same(Drive(c, st, PrintAll(ns) + tail, more), Prepend(AllCalls(c, ns), Drive(c, st, tail, more)))
    decreases ns, 2
  {
    var st := State(Content, open);
    if ns == [] {
      assert PrintAll(ns) + tail == tail;
      assert [] + Drive(c, st, tail, more).events == Drive(c, st, tail, more).events;
      SameRefl(Drive(c, st, tail, more));
    } else {
      var x := PrintAll(ns[1..]);
      NodeReads(c, open, ns[0], x, tail, more);
      NodesRead(c, open, ns[1..], tail, more);
      Assoc(Print(ns[0]), x, tail);
      SameThen(Calls(c, ns[0]), AllCalls(c, ns[1..]), Drive(c, st, PrintAll(ns) + tail, more),
        Drive(c, st, x + tail, more), Drive(c, st, tail, more));
    }
  }

  lemma RootReads(c: Client, n: Node, rest: seq<Byte>, more: bool)
    requires Ascii(c.enc) && (n.Element? || n.Empty?) && IsNode(c, n, [])
    ensures Same(Drive(c, State(Content, []), Print(n) + rest, more),
              Prepend(Calls(c, n), Drive(c, State(Epilog, []), rest, more)))
  {
    if n.Element? {
      ElementReads(c, [], n, rest, more);
    } else {
      StartReads(c, [], n.tag, true, rest, more);
      SameRefl(Drive(c, State(Content, []), Print(n) + rest, more));
    }
  }

  /** The text of a well-formed element is read whole, and reported as that element. */
  lemma DocumentReads(c: Client, n: Node, rest: seq<Byte>, more: bool)
    requires Ascii(c.enc) && (n.Element? || n.Empty?) && IsNode(c, n, [])
    ensures var o := Drive(c, State(Content, []), Print(n) + rest, more);
            o.error.None? && o.st == State(Epilog, []) && o.left == rest && Atoms(o.events) == Atoms(Calls(c, n))
  {
    RootReads(c, n, rest, more);
    var calls, o := Calls(c, n), Drive(c, State(Epilog, []), rest, more);
    assert o == Out(State(Epilog, []), [], rest, None);
    assert calls + [] == calls;
  }

  /** And so it is however its text is cut into buffers. */
  lemma PiecesRead(c: Client, n: Node, rest: seq<Byte>, chunks: seq<seq<Byte>>)
    requires Ascii(c.enc) && (n.Element? || n.Empty?) && IsNode(c, n, [])
    requires chunks != [] && Concat(chunks) == Print(n) + rest
    ensures var o := Feed(c, State(Content, []), [], chunks);
            o.error.None? && o.st == State(Epilog, []) && Atoms(o.events) == Atoms(Calls(c, n))
  {
    BufferIndependence(c, State(Content, []), chunks);
    DocumentReads(c, n, rest, false);
  }

  /** An XML declaration inside content is the error for a misplaced one, and a target that
      differs from `xml` in the case of its letters is no token. */
  lemma DeclarationFails(c: Client, open: seq<seq<Byte>>, o: Order, rest: seq<Byte>, more: bool)
    requires Ascii(c.enc) && IsOrder(c.enc, o) && IsXml(Concat(o.target))
    ensures Drive(c, State(Content, open), PrintOrder(o) + rest, more).error == Some(MisplacedXmlPi)
  {
    PrintedOrder(c.enc, o);
    TokenTurn(c, open, PrintOrder(o), XmlDecl, rest);
  }

  // ----- errors

  /** An end tag of another name than that of the open element. */
  lemma MismatchFails(c: Client, open: seq<seq<Byte>>, n: Name, space: seq<Byte>, rest: seq<Byte>, more: bool)
    requires Ascii(c.enc) && IsName(c.enc, n) && AllWhite(space)
    ensures open != [] && open[|open| - 1] != PrintName(n) ==>
              Drive(c, State(Content, open), PrintEnd(n, space) + rest, more).error == Some(TagMismatch)
    ensures open == [] ==> Drive(c, State(Content, open), PrintEnd(n, space) + rest, more).error == Some(AsyncEntity)
  {
    PrintedEnd(c.enc, n, space);
    EndRawName(c.enc, n, space);
    TokenTurn(c, open, PrintEnd(n, space), EndTag, rest);
  }

  /** A tag whose attributes the client refuses. */
  lemma AttsRefused(c: Client, open: seq<seq<Byte>>, t: Tag, empty: bool, rest: seq<Byte>, more: bool)
    requires Ascii(c.enc) && IsTag(c.enc, t) && c.atts(PrintTag(t, empty)).Some?
    ensures Drive(c, State(Content, open), PrintTag(t, empty) + rest, more).error == c.atts(PrintTag(t, empty))
  {
    PrintedTag(c.enc, t, empty);
    TokenTurn(c, open, PrintTag(t, empty), TagKind(t, empty), rest);
  }

  /** A reference that the client refuses. */
  lemma RefRefused(c: Client, open: seq<seq<Byte>>, r: Ref, rest: seq<Byte>, more: bool)
    requires Ascii(c.enc) && IsRef(c.enc, r) && c.reference(PrintRef(r)).Err?
    ensures Drive(c, State(Content, open), PrintRef(r) + rest, more).error == Some(c.reference(PrintRef(r)).error)
  {
    PrintedRef(c.enc, r);
    TokenTurn(c, open, PrintRef(r), RefKind(r), rest);
  }

  /** Markup that is cut short waits for the rest, and is an error where there is none. */
  lemma CutWaits(c: Client, open: seq<seq<Byte>>, tok: seq<Byte>, kind: Kind, k: nat)
    requires Ascii(c.enc) && ContentTok(c.enc, tok) == Tok(kind, |tok|) && (tok[0] == 0x3C || tok[0] == 0x26) && 0 < k < |tok|
    ensures var st := State(Content, open);
            && Drive(c, st, tok[..k], true) == Out(st, [], tok[..k], None)
            && Drive(c, st, tok[..k], false).error in {Some(UnclosedToken), Some(PartialCharacter)}
  {
    var s := tok[..k];
    TypeOf(c.enc, s[0]);
    if !Undecided(ContentTok(c.enc, s)) {
      ContentTokStable(c.enc, s, tok);
    }
    NoTrailing(c.enc, s);
  }

  lemma NoTrailing(enc: Encoding, s: seq<Byte>)
    requires Ascii(enc) && s != [] && (s[0] == 0x3C || s[0] == 0x26)
    ensures !ContentTok(enc, s).NoToken? && !ContentTok(enc, s).TrailingCr? && !ContentTok(enc, s).TrailingRsqb?
    ensures !IsData(ContentTok(enc, s))
  {
    TypeOf(enc, s[0]);
  }

  /** Input that ends in content, or in a section. */
  lemma EndOfInput(c: Client, open: seq<seq<Byte>>)
    ensures Drive(c, State(Content, open), [], false).error == Some(NoElements)
    ensures Drive(c, State(Cdata, open), [], false).error == Some(UnclosedCdata)
  {
  }
}
