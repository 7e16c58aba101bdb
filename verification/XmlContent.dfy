/** Element content as a step machine (expat/xmlparse.c:2121-2573, 3001-3107), and the
    proof that it does not matter how the input is cut into buffers. */
module XmlContent {
  import opened Wrappers
  import opened Endian
  import opened XmlBytes
  import opened XmlScan

  datatype Error =
    | NoElements | InvalidToken | UnclosedToken | PartialCharacter | TagMismatch
    | AsyncEntity | MisplacedXmlPi | UnclosedCdata | Finished | Rejected(code: int)

  datatype Result<T> = Ok(value: T) | Err(error: Error)

  /** What the parser does with the bytes of one complete token: `atts` stands for
      `storeAtts` on a start tag, `reference` for the text of a character or entity
      reference. */
  datatype Client = Client(
    enc: Encoding,
    atts: seq<Byte> -> Option<Error>,
    reference: seq<Byte> -> Result<seq<Byte>>)

  /** The handler calls. */
  datatype Event =
    | Start(tag: seq<Byte>) | End(name: seq<Byte>) | Text(bytes: seq<Byte>)
    | Instruction(pi: seq<Byte>) | Remark(comment: seq<Byte>) | CdataStart | CdataEnd

  datatype Mode = Content | Cdata | Epilog

  /** The processor and the raw names of the open elements, innermost last. */
  datatype State = State(mode: Mode, open: seq<seq<Byte>>)

  /** One turn of the parse loop: out of decided tokens (with the error this is in the
      last buffer), failed, or one token further. */
  datatype Turn = Wait(error: Error) | Fail(error: Error) | Next(st: State, events: seq<Event>, n: nat)

  /** `XmlNameLength` from position `i`: the end of the name that starts there. */
  function NameEnd(enc: Encoding, s: seq<Byte>, i: nat): (j: nat)
    requires i <= |s|
    ensures i <= j <= |s|
    decreases |s| - i
  {
    if i == |s| then i
    else
      var t := enc.byteType(s[i]);
      if IsLead(t) then (if i + LeadWidth(t) <= |s| then NameEnd(enc, s, i + LeadWidth(t)) else i)
      else if t.NonAscii? || t.Nmstrt? || t.Colon? || t.Hex? || t.Digit? || t.Name? || t.Minus? then
        NameEnd(enc, s, i + 1)
      else i
  }

  /** The raw name in a tag whose name starts at `i`. */
  function RawName(enc: Encoding, tag: seq<Byte>, i: nat): seq<Byte>
  {
    if i <= |tag| then tag[i..NameEnd(enc, tag, i)] else []
  }

  function Leave(open: seq<seq<Byte>>): Mode { if open == [] then Epilog else Content }

  /** The effect of one complete content token, given by its bytes. */
  function OnToken(c: Client, st: State, kind: Kind, bytes: seq<Byte>): (t: Turn)
    ensures t.Next? ==> t.n == |bytes|
  {
    var n := |bytes|;
    match kind
    case StartNoAtts | StartWithAtts =>
      var e := c.atts(bytes);
      if e.Some? then Fail(e.value)
      else Next(State(Content, st.open + [RawName(c.enc, bytes, 1)]), [Start(bytes)], n)
    case EmptyNoAtts | EmptyWithAtts =>
      var e := c.atts(bytes);
      if e.Some? then Fail(e.value)
      else Next(State(Leave(st.open), st.open), [Start(bytes), End(RawName(c.enc, bytes, 1))], n)
    case EndTag =>
      if st.open == [] then Fail(AsyncEntity)
      else
        var name, rest := st.open[|st.open| - 1], st.open[..|st.open| - 1];
        if RawName(c.enc, bytes, 2) != name then Fail(TagMismatch)
        else Next(State(Leave(rest), rest), [End(name)], n)
    case EntityRef | CharRef =>
      (match c.reference(bytes)
       case Ok(text) => Next(st, [Text(text)], n)
       case Err(e) => Fail(e))
    case XmlDecl => Fail(MisplacedXmlPi)
    case DataChars => Next(st, [Text(bytes)], n)
    case DataNewline => Next(st, [Text([0x0A])], n)
    case CdataOpen => Next(State(Cdata, st.open), [CdataStart], n)
    case CdataClose => Next(State(Content, st.open), [CdataEnd], n)
    case Pi => Next(st, [Instruction(bytes)], n)
    case Comment => Next(st, [Remark(bytes)], n)
  }

  function Scan(enc: Encoding, mode: Mode, s: seq<Byte>): (t: Token)
    ensures t.Tok? ==> 0 < t.next <= |s|
  {
    if mode.Cdata? then CdataTok(enc, s) else ContentTok(enc, s)
  }

  /** The error that an undecided token is in the last buffer. Content that runs out at
      tag level 0 or inside an element is reported as missing elements alike, because
      the document's own content starts at tag level 0. */
  function FinalError(mode: Mode, t: Token): Error {
    if t.PartialChar? then PartialCharacter
    else if mode.Cdata? then UnclosedCdata
    else if t.Partial? then UnclosedToken
    else NoElements
  }

  function OneTurn(c: Client, st: State, s: seq<Byte>): (r: Turn)
    ensures r.Next? ==> 0 < r.n <= |s|
  {
    var t := Scan(c.enc, st.mode, s);
    match t
    case Invalid(_) => Fail(InvalidToken)
    case Tok(kind, next) => OnToken(c, st, kind, s[..next])
    case _ => Wait(FinalError(st.mode, t))
  }

  /** The result of handing over one buffer: the new state, the events in order, the
      bytes not consumed, and the error if there is one. */
  datatype Out = Out(st: State, events: seq<Event>, left: seq<Byte>, error: Option<Error>)

  function Prepend(events: seq<Event>, o: Out): Out { o.(events := events + o.events) }

  /** The parse loop over one buffer; `haveMore` unless it is the last one. */
  function Drive(c: Client, st: State, s: seq<Byte>, haveMore: bool): (o: Out)
    decreases |s|
  {
    if st.mode.Epilog? then Out(st, [], s, None)
    else
      match OneTurn(c, st, s)
      case Wait(e) => Out(st, [], s, if haveMore then None else Some(e))
      case Fail(e) => Out(st, [], s, Some(e))
      case Next(st', events, n) => Prepend(events, Drive(c, st', s[n..], haveMore))
  }

  /** A handler call, with character data taken byte by byte: two event sequences have
      the same atoms exactly when they differ only in how character data is cut. */
  datatype Atom = Byte(b: Byte) | Call(e: Event)

  function Bytes(s: seq<Byte>): seq<Atom> { seq(|s|, i requires 0 <= i < |s| => Byte(s[i])) }

  function AtomsOf(e: Event): seq<Atom> { if e.Text? then Bytes(e.bytes) else [Call(e)] }

  function Atoms(events: seq<Event>): seq<Atom> {
    if events == [] then [] else AtomsOf(events[0]) + Atoms(events[1..])
  }

  lemma {:induction false} AtomsConcat(a: seq<Event>, b: seq<Event>)
    ensures Atoms(a + b) == Atoms(a) + Atoms(b)
  {
    if a == [] {
      assert a + b == b;
    } else {
      AtomsConcat(a[1..], b);
      var first := AtomsOf(a[0]);
      assert (a + b)[0] == a[0] && (a + b)[1..] == a[1..] + b;
      assert first + (Atoms(a[1..]) + Atoms(b)) == (first + Atoms(a[1..])) + Atoms(b);
    }
  }

  /** The same outcome: the same error, or success with the same state, the same unread
      bytes and the same events up to the cuts in character data. */
  ghost predicate Same(a: Out, b: Out) {
    a.error == b.error &&
    (a.error.None? ==> a.st == b.st && a.left == b.left && Atoms(a.events) == Atoms(b.events))
  }

  lemma SamePrepend(e: seq<Event>, f: seq<Event>, a: Out, b: Out)
    requires Same(a, b) && Atoms(e) == Atoms(f)
    ensures Same(Prepend(e, a), Prepend(f, b))
  {
    AtomsConcat(e, a.events);
    AtomsConcat(f, b.events);
  }

  /** One decided turn on a short buffer, seen from a longer one: parsing the longer
      buffer is the same as taking that turn and parsing what follows it. */
  lemma TurnStable(c: Client, st: State, s: seq<Byte>, t: seq<Byte>, more: bool)
    requires !st.mode.Epilog? && OneTurn(c, st, s).Next?
    ensures var r := OneTurn(c, st, s);
            Same(Drive(c, st, s + t, more), Prepend(r.events, Drive(c, r.st, s[r.n..] + t, more)))
  {
    var u, r, tok := s + t, OneTurn(c, st, s), Scan(c.enc, st.mode, s);
    if st.mode.Cdata? {
      CdataTokStable(c.enc, s, u);
    } else {
      ContentTokStable(c.enc, s, u);
    }
    assert u[r.n..] == s[r.n..] + t && u[..r.n] == s[..r.n];
    if Scan(c.enc, st.mode, u) != tok {
      DataContinues(c, st, u, tok.next, u[tok.next..], more);
    }
  }

  lemma DriveData(c: Client, st: State, u: seq<Byte>, m: nat, more: bool)
    requires !st.mode.Epilog? && Scan(c.enc, st.mode, u) == Tok(DataChars, m)
    ensures 0 < m <= |u| && Drive(c, st, u, more) == Prepend([Text(u[..m])], Drive(c, st, u[m..], more))
  {
  }

  lemma TextSplit(u: seq<Byte>, n: nat, m: nat)
    requires n <= m <= |u|
    ensures Atoms([Text(u[..m])]) == Atoms([Text(u[..n])] + [Text(u[n..m])])
  {
    AtomsConcat([Text(u[..n])], [Text(u[n..m])]);
    assert Bytes(u[..m]) == Bytes(u[..n]) + Bytes(u[n..m]);
  }

  /** One data token, or the same bytes as two. */
  lemma TextTwice(u: seq<Byte>, n: nat, m: nat, o: Out)
    requires n <= m <= |u|
    ensures Same(Prepend([Text(u[..m])], o), Prepend([Text(u[..n])], Prepend([Text(u[n..m])], o)))
  {
    var a, b := [Text(u[..n])], [Text(u[n..m])];
    TextSplit(u, n, m);
    SamePrepend([Text(u[..m])], a + b, o, o);
    assert a + (b + o.events) == (a + b) + o.events;
  }

  /** Cutting a data token in two changes no outcome. */
  lemma DataContinues(c: Client, st: State, u: seq<Byte>, n: nat, v: seq<Byte>, more: bool)
    requires !st.mode.Epilog? && 0 < n <= |u| && v == u[n..]
    requires Scan(c.enc, st.mode, u) == Shift(Scan(c.enc, st.mode, v), n)
    requires IsData(Scan(c.enc, st.mode, u)) || Scan(c.enc, st.mode, u).Invalid?
    ensures Same(Drive(c, st, u, more), Prepend([Text(u[..n])], Drive(c, st, v, more)))
  {
    var tok := Scan(c.enc, st.mode, u);
    if IsData(tok) {
      DriveData(c, st, u, tok.next, more);
      DriveData(c, st, v, tok.next - n, more);
      assert v[tok.next - n..] == u[tok.next..] && v[..tok.next - n] == u[n..tok.next];
      TextTwice(u, n, tok.next, Drive(c, st, u[tok.next..], more));
    }
  }

  /** The rest of the input handed over after the outcome `o`. */
  function Resume(c: Client, o: Out, t: seq<Byte>, more: bool): Out {
    if o.error.Some? then o else Prepend(o.events, Drive(c, o.st, o.left + t, more))
  }

  lemma ResumePrepend(c: Client, e: seq<Event>, o: Out, t: seq<Byte>, more: bool)
    ensures Resume(c, Prepend(e, o), t, more) == Prepend(e, Resume(c, o, t, more))
  {
    if o.error.None? {
      var p := Drive(c, o.st, o.left + t, more);
      assert e + (o.events + p.events) == (e + o.events) + p.events;
    }
  }

  lemma SameTrans(a: Out, b: Out, d: Out)
    requires Same(a, b) && Same(b, d)
    ensures Same(a, d)
  {
  }

  /** One cut: a buffer, then its unread bytes together with the rest of the input. */
  lemma {:induction false} OneCut(c: Client, st: State, s: seq<Byte>, t: seq<Byte>, more: bool)
    ensures Same(Drive(c, st, s + t, more), Resume(c, Drive(c, st, s, true), t, more))
    decreases |s|
  {
    var r := OneTurn(c, st, s);
    if st.mode.Epilog? {
    } else if r.Wait? {
      assert [] + Drive(c, st, s + t, more).events == Drive(c, st, s + t, more).events;
    } else if r.Fail? {
      FailStable(c, st, s, t);
    } else {
      var rest := s[r.n..];
      var o := Drive(c, r.st, rest, true);
      TurnStable(c, st, s, t, more);
      OneCut(c, r.st, rest, t, more);
      SamePrepend(r.events, r.events, Drive(c, r.st, rest + t, more), Resume(c, o, t, more));
      ResumePrepend(c, r.events, o, t, more);
      SameTrans(Drive(c, st, s + t, more), Prepend(r.events, Drive(c, r.st, rest + t, more)),
        Prepend(r.events, Resume(c, o, t, more)));
    }
  }

  /** An error that a buffer shows stays whatever follows. */
  lemma FailStable(c: Client, st: State, s: seq<Byte>, t: seq<Byte>)
    requires !st.mode.Epilog? && OneTurn(c, st, s).Fail?
    ensures OneTurn(c, st, s + t) == OneTurn(c, st, s)
  {
    var tok := Scan(c.enc, st.mode, s);
    if st.mode.Cdata? {
      CdataTokStable(c.enc, s, s + t);
    } else {
      ContentTokStable(c.enc, s, s + t);
    }
    if tok.Tok? {
      assert (s + t)[..tok.next] == s[..tok.next];
    }
  }

  function Concat(chunks: seq<seq<Byte>>): seq<Byte> {
    if chunks == [] then [] else chunks[0] + Concat(chunks[1..])
  }

  /** Parsing buffer after buffer, the unread bytes kept in front of the next one; only
      the last buffer is final. */
  function Feed(c: Client, st: State, left: seq<Byte>, chunks: seq<seq<Byte>>): Out
    requires chunks != []
    decreases |chunks|
  {
    var o := Drive(c, st, left + chunks[0], |chunks| > 1);
    if |chunks| == 1 || o.error.Some? then o
    else Prepend(o.events, Feed(c, o.st, o.left, chunks[1..]))
  }

  lemma {:induction false} FeedSame(c: Client, st: State, left: seq<Byte>, chunks: seq<seq<Byte>>)
    requires chunks != []
    ensures Same(Feed(c, st, left, chunks), Drive(c, st, left + Concat(chunks), false))
    decreases |chunks|
  {
    var o := Drive(c, st, left + chunks[0], |chunks| > 1);
    if |chunks| == 1 {
      assert Concat(chunks) == chunks[0];
    } else {
      var rest := Concat(chunks[1..]);
      assert left + Concat(chunks) == (left + chunks[0]) + rest;
      OneCut(c, st, left + chunks[0], rest, false);
      if o.error.None? {
        FeedSame(c, o.st, o.left, chunks[1..]);
        SamePrepend(o.events, o.events, Feed(c, o.st, o.left, chunks[1..]), Drive(c, o.st, o.left + rest, false));
      }
    }
  }

  /** Buffer independence: cutting the input into buffers anywhere gives the same error
      as the one-buffer parse, or succeeds with it and reports the same events once
      adjacent character data is merged. */
  lemma BufferIndependence(c: Client, st: State, chunks: seq<seq<Byte>>)
    requires chunks != []
    ensures Same(Feed(c, st, [], chunks), Drive(c, st, Concat(chunks), false))
    ensures Feed(c, st, [], chunks).error.None? <==> Drive(c, st, Concat(chunks), false).error.None?
  {
    FeedSame(c, st, [], chunks);
    assert [] + Concat(chunks) == Concat(chunks);
  }

  /** Parsing succeeds only by reaching the end tag of the root element. */
  lemma {:induction false} SuccessIsEpilog(c: Client, st: State, s: seq<Byte>)
    requires Drive(c, st, s, false).error.None?
    ensures Drive(c, st, s, false).st.mode.Epilog?
    decreases |s|
  {
    if !st.mode.Epilog? && OneTurn(c, st, s).Next? {
      var r := OneTurn(c, st, s);
      SuccessIsEpilog(c, r.st, s[r.n..]);
    }
  }

  /** The open elements after a sequence of handler calls, None when an end call does
      not name the innermost open element. */
  function Nest(enc: Encoding, open: seq<seq<Byte>>, events: seq<Event>): Option<seq<seq<Byte>>>
    decreases |events|
  {
    if events == [] then Some(open)
    else
      match events[0]
      case Start(tag) => Nest(enc, open + [RawName(enc, tag, 1)], events[1..])
      case End(name) =>
        if open == [] || open[|open| - 1] != name then None
        else Nest(enc, open[..|open| - 1], events[1..])
      case _ => Nest(enc, open, events[1..])
  }

  lemma {:induction false} NestConcat(enc: Encoding, open: seq<seq<Byte>>, a: seq<Event>, b: seq<Event>)
    requires Nest(enc, open, a).Some?
    ensures Nest(enc, open, a + b) == Nest(enc, Nest(enc, open, a).value, b)
    decreases |a|
  {
    if a == [] {
      assert a + b == b;
    } else {
      assert (a + b)[1..] == a[1..] + b;
      var next := if a[0].Start? then open + [RawName(enc, a[0].tag, 1)]
                  else if a[0].End? then open[..|open| - 1] else open;
      NestConcat(enc, next, a[1..], b);
    }
  }

  /** An empty-element tag opens and closes its element. */
  lemma EmptyNests(enc: Encoding, open: seq<seq<Byte>>, tag: seq<Byte>)
    ensures Nest(enc, open, [Start(tag), End(RawName(enc, tag, 1))]) == Some(open)
  {
    var name := RawName(enc, tag, 1);
    var events := [Start(tag), End(name)];
    var inner := open + [name];
    assert inner[..|inner| - 1] == open;
    assert events[1..] == [End(name)];
    assert Nest(enc, open, events) == Nest(enc, inner, [End(name)]);
    assert Nest(enc, inner, [End(name)]) == Nest(enc, open, []);
  }

  lemma TurnNests(c: Client, st: State, s: seq<Byte>)
    requires OneTurn(c, st, s).Next?
    ensures var r := OneTurn(c, st, s); Nest(c.enc, st.open, r.events) == Some(r.st.open)
    ensures var r := OneTurn(c, st, s); r.st.mode.Epilog? ==> r.st.open == [] || st.mode.Epilog?
  {
    var r := OneTurn(c, st, s);
    if |r.events| == 2 {
      EmptyNests(c.enc, st.open, r.events[0].tag);
    }
  }

  /** Element nesting: whatever the input, the reported start and end calls nest
      properly and leave exactly the elements on the tag stack open; a parse of the
      document's content that succeeds closes all of them. */
  lemma {:induction false} CallsNest(c: Client, st: State, s: seq<Byte>, more: bool)
    requires st.mode.Epilog? ==> st.open == []
    ensures var o := Drive(c, st, s, more);
            Nest(c.enc, st.open, o.events) == Some(o.st.open) && (o.st.mode.Epilog? ==> o.st.open == [])
    ensures !more && Drive(c, st, s, more).error.None? ==>
              Nest(c.enc, st.open, Drive(c, st, s, more).events) == Some([])
    decreases |s|
  {
    var r := OneTurn(c, st, s);
    if !st.mode.Epilog? && r.Next? {
      TurnNests(c, st, s);
      CallsNest(c, r.st, s[r.n..], more);
      NestConcat(c.enc, st.open, r.events, Drive(c, r.st, s[r.n..], more).events);
    }
    if !more && Drive(c, st, s, more).error.None? {
      SuccessIsEpilog(c, st, s);
    }
  }
}
