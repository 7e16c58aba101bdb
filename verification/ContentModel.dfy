/** Element type declarations: the content trees, their tokens, and the recogniser of
    expat/xmlrole.c:968-1196 with the connector checks of expat/xmlparse.c:4202-4256, as a
    pushdown machine over open groups. It accepts exactly the productions [46]-[51] of
    section 3.2 of XML 1.0. */
module ContentModel {

  datatype Quant = One | Opt | Rep | Plus

  datatype GroupKind = Sequence | Choice | Mixed

  datatype Node = Leaf(name: string, quant: Quant) | Group(kind: GroupKind, quant: Quant, children: seq<Node>)

  datatype Content = Empty | Any | Tree(root: Node)

  /** `<!ELEMENT name content>` */
  datatype Decl = Decl(name: string, content: Content)

  /** Prolog tokens; `Name` is XML_TOK_NAME, _QUESTION, _ASTERISK or _PLUS and `Close`
      one of the four closing parentheses. */
  datatype Token =
    | Space | Name(name: string, quant: Quant) | Pound(name: string)
    | Open | Close(quant: Quant) | Or | Comma | DeclClose | Other

  // ----- the grammar

  function Sep(kind: GroupKind): Token { if kind.Sequence? then Comma else Or }

  /** The nodes with a separator between them. */
  function Joined(nodes: seq<Node>, sep: Token): seq<Token>
    decreases nodes
  {
    if nodes == [] then []
    else if |nodes| == 1 then Print(nodes[0])
    else Print(nodes[0]) + [sep] + Joined(nodes[1..], sep)
  }

  function Print(n: Node): seq<Token>
    decreases n
  {
    match n
    case Leaf(name, q) => [Name(name, q)]
    case Group(kind, q, children) =>
      if kind.Mixed? then [Open, Pound("PCDATA")] + (if children == [] then [] else [Or] + Joined(children, Or)) + [Close(q)]
      else [Open] + Joined(children, Sep(kind)) + [Close(q)]
  }

  /** A content particle, productions [48]-[50]: a choice has at least two branches. */
  predicate IsParticle(n: Node)
    decreases n
  {
    match n
    case Leaf(_, _) => true
    case Group(kind, _, children) =>
      && !kind.Mixed?
      && |children| >= (if kind.Choice? then 2 else 1)
      && forall c | c in children :: IsParticle(c)
  }

  /** Mixed content, production [51]. */
  predicate IsMixed(n: Node) {
    && n.Group? && n.kind.Mixed?
    && (forall c | c in n.children :: c.Leaf? && c.quant.One?)
    && (n.quant.Rep? || (n.children == [] && n.quant.One?))
  }

  predicate IsContent(c: Content) {
    c.Tree? ==> c.root.Group? && (IsParticle(c.root) || IsMixed(c.root))
  }

  function PrintContent(c: Content): seq<Token> {
    match c
    case Empty => [Name("EMPTY", One)]
    case Any => [Name("ANY", One)]
    case Tree(root) => Print(root)
  }

  function PrintDecl(d: Decl): seq<Token> {
    [Name(d.name, One)] + PrintContent(d.content) + [DeclClose]
  }

  /** White space may stand between any two tokens. */
  function Strip(ts: seq<Token>): seq<Token> {
    if ts == [] then [] else (if ts[0].Space? then [] else [ts[0]]) + Strip(ts[1..])
  }

  // ----- the recogniser

  /** The handlers element0 to element7, declClose, the state after `>`, and error. */
  datatype Handler = E0 | E1 | E2 | E3 | E4 | E5 | E6 | E7 | EndDecl | Accepted | Error

  datatype Connector = NoConnector | CommaConnector | OrConnector

  /** An open group: its connector so far and its complete children. */
  datatype Frame = Frame(mixed: bool, conn: Connector, children: seq<Node>)

  /** The recogniser, with the groups that are open, outermost first. */
  datatype State = State(handler: Handler, name: string, frames: seq<Frame>, content: Content)

  const START := State(E0, "", [], Empty)

  function Failed(s: State): State { s.(handler := Error) }

  function Kind(f: Frame): GroupKind {
    if f.mixed then Mixed else if f.conn.OrConnector? then Choice else Sequence
  }

  function Top(s: State): Frame
    requires s.frames != []
  {
    s.frames[|s.frames| - 1]
  }

  function WithTop(s: State, f: Frame): State
    requires s.frames != []
  {
    s.(frames := s.frames[..|s.frames| - 1] + [f])
  }

  function AddChild(s: State, n: Node, h: Handler): State
    requires s.frames != []
  {
    WithTop(s, Top(s).(children := Top(s).children + [n])).(handler := h)
  }

  function OpenGroup(s: State, h: Handler): State {
    s.(frames := s.frames + [Frame(false, NoConnector, [])], handler := h)
  }

  /** A closing parenthesis: the group becomes a child of the one around it, or the whole
      content. */
  function CloseGroup(s: State, q: Quant): State
    requires s.frames != []
  {
    var n := Group(Kind(Top(s)), q, Top(s).children);
    var outer := s.(frames := s.frames[..|s.frames| - 1]);
    if outer.frames == [] then outer.(handler := EndDecl, content := Tree(n)) else AddChild(outer, n, E7)
  }

  function Connect(s: State, c: Connector): State
    requires s.frames != []
  {
    if Top(s).conn == NoConnector || Top(s).conn == c then WithTop(s, Top(s).(conn := c)).(handler := E6)
    else Failed(s)
  }

  function Particle(s: State, t: Token): State
    requires s.frames != []
  {
    match t
    case Open => OpenGroup(s, E6)
    case Name(name, q) => AddChild(s, Leaf(name, q), E7)
    case _ => Failed(s)
  }

  /** One token. */
  function Step(s: State, t: Token): State
    requires Wf(s)
  {
    if t.Space? then s
    else
      match s.handler
      case E0 => if t.Name? && t.quant.One? then s.(handler := E1, name := t.name) else Failed(s)
      case E1 =>
        if t == Name("EMPTY", One) then s.(handler := EndDecl, content := Empty)
        else if t == Name("ANY", One) then s.(handler := EndDecl, content := Any)
        else if t.Open? then OpenGroup(s, E2)
        else Failed(s)
      case E2 =>
        if t == Pound("PCDATA") then WithTop(s, Top(s).(mixed := true)).(handler := E3) else Particle(s, t)
      case E3 =>
        if t.Close? && (t.quant.One? || t.quant.Rep?) then CloseGroup(s, t.quant)
        else if t.Or? then s.(handler := E4)
        else Failed(s)
      case E4 => if t.Name? && t.quant.One? then AddChild(s, Leaf(t.name, One), E5) else Failed(s)
      case E5 =>
        if t == Close(Rep) then CloseGroup(s, Rep) else if t.Or? then s.(handler := E4) else Failed(s)
      case E6 => Particle(s, t)
      case E7 =>
        if t.Close? then CloseGroup(s, t.quant)
        else if t.Comma? then Connect(s, CommaConnector)
        else if t.Or? then Connect(s, OrConnector)
        else Failed(s)
      case EndDecl => if t.DeclClose? then s.(handler := Accepted) else Failed(s)
      case Accepted | Error => Failed(s)
  }

  /** A plain group, complete up to its next child if `more` is still to come. */
  predicate PlainFrame(f: Frame, more: bool) {
    && !f.mixed
    && (forall c | c in f.children :: IsParticle(c))
    && (if more then f.conn.NoConnector? <==> f.children == []
        else f.children != [] && (f.conn.NoConnector? <==> |f.children| == 1))
  }

  predicate MixedFrame(f: Frame) {
    f.mixed && f.conn.NoConnector? && forall c | c in f.children :: c.Leaf? && c.quant.One?
  }

  /** What every reachable state keeps. */
  predicate Wf(s: State) {
    var n := |s.frames|;
    match s.handler
    case E0 | E1 => n == 0
    case E2 => n == 1 && s.frames[0] == Frame(false, NoConnector, [])
    case E3 => n == 1 && MixedFrame(s.frames[0]) && s.frames[0].children == []
    case E4 => n == 1 && MixedFrame(s.frames[0])
    case E5 => n == 1 && MixedFrame(s.frames[0]) && s.frames[0].children != []
    case E6 => n > 0 && forall i | 0 <= i < n :: PlainFrame(s.frames[i], true)
    case E7 => n > 0 && PlainFrame(s.frames[n - 1], false) && forall i | 0 <= i < n - 1 :: PlainFrame(s.frames[i], true)
    case EndDecl | Accepted => n == 0 && IsContent(s.content)
    case Error => true
  }

  lemma GroupStepWf(s: State, t: Token)
    requires Wf(s) && (s.handler.E2? || s.handler.E6? || s.handler.E7?)
    ensures Wf(Step(s, t))
  {
  }

  lemma StepWf(s: State, t: Token)
    requires Wf(s)
    ensures Wf(Step(s, t))
  {
    if s.handler.E2? || s.handler.E6? || s.handler.E7? {
      GroupStepWf(s, t);
    }
  }

  function Run(s: State, ts: seq<Token>): State
    requires Wf(s)
    decreases |ts|
  {
    if ts == [] then s
    else
      StepWf(s, ts[0]);
      Run(Step(s, ts[0]), ts[1..])
  }

  lemma {:induction false} RunConcat(s: State, a: seq<Token>, b: seq<Token>)
    requires Wf(s)
    ensures Wf(Run(s, a)) && Run(s, a + b) == Run(Run(s, a), b)
    decreases |a|
  {
    if a == [] {
      assert a + b == b;
    } else {
      StepWf(s, a[0]);
      RunConcat(Step(s, a[0]), a[1..], b);
      assert (a + b)[1..] == a[1..] + b;
    }
  }

  lemma {:induction false} RunStrip(s: State, ts: seq<Token>)
    requires Wf(s)
    ensures Run(s, ts) == Run(s, Strip(ts))
    decreases |ts|
  {
    if ts != [] {
      StepWf(s, ts[0]);
      RunStrip(Step(s, ts[0]), ts[1..]);
      if !ts[0].Space? {
        assert ([ts[0]] + Strip(ts[1..]))[1..] == Strip(ts[1..]);
      } else {
        assert [] + Strip(ts[1..]) == Strip(ts[1..]);
      }
    }
  }

  // ----- everything printed is accepted

  lemma RunOne(s: State, t: Token)
    requires Wf(s)
    ensures Run(s, [t]) == Step(s, t)
  {
    StepWf(s, t);
    assert [t][1..] == [];
  }

  /** First `a`, then the token `t`, then `b`. */
  lemma RunThree(s: State, a: seq<Token>, t: Token, b: seq<Token>)
    requires Wf(s)
    ensures Wf(Run(s, a)) && Wf(Step(Run(s, a), t))
    ensures Run(s, a + [t] + b) == Run(Step(Run(s, a), t), b)
  {
    RunConcat(s, a, [t]);
    RunConcat(s, a + [t], b);
    RunOne(Run(s, a), t);
  }

  lemma TopReplaced(s: State, f: Frame, g: Frame, h: Handler, k: Handler)
    requires s.frames != []
    ensures Top(WithTop(s, f).(handler := h)) == f
    ensures WithTop(WithTop(s, f).(handler := h), g).(handler := k) == WithTop(s, g).(handler := k)
  {
    var n := |s.frames| - 1;
    assert (s.frames[..n] + [f])[..n] == s.frames[..n];
  }

  /** Closing an inner group adds it to the group around it. */
  lemma CloseInner(s: State, f: Frame, q: Quant)
    requires s.frames != []
    ensures CloseGroup(s.(frames := s.frames + [f], handler := E7), q) ==
            AddChild(s, Group(Kind(f), q, f.children), E7)
  {
    assert (s.frames + [f])[..|s.frames|] == s.frames;
  }

  /** A state that waits for a content particle inside a plain group. */
  predicate Waiting(s: State) {
    Wf(s) && (s.handler.E2? || s.handler.E6?)
  }

  function ConnectorOf(kind: GroupKind): Connector { if kind.Choice? then OrConnector else CommaConnector }

  /** The frame of a group of `kind` once all its children are read. */
  function FullFrame(kind: GroupKind, children: seq<Node>): Frame {
    Frame(false, if |children| <= 1 then NoConnector else ConnectorOf(kind), children)
  }

  function WithFull(s: State, kind: GroupKind, children: seq<Node>): State
    requires s.frames != []
  {
    WithTop(s, FullFrame(kind, children)).(handler := E7)
  }

  /** A child added to a waiting group. */
  lemma AddWf(s: State, n: Node)
    requires Waiting(s) && IsParticle(n)
    ensures Wf(AddChild(s, n, E7))
  {
  }

  /** The separator after a child of a group of `kind`. */
  lemma ReadSep(s: State, n: Node, kind: GroupKind)
    requires Waiting(s) && !kind.Mixed? && IsParticle(n)
    requires Top(s).children == [] || Top(s).conn == ConnectorOf(kind)
    ensures Wf(AddChild(s, n, E7))
    ensures Step(AddChild(s, n, E7), Sep(kind)) ==
            WithTop(s, Frame(false, ConnectorOf(kind), Top(s).children + [n])).(handler := E6)
  {
    AddWf(s, n);
    var f := Top(s);
    var g := f.(children := f.children + [n]);
    TopReplaced(s, g, g.(conn := ConnectorOf(kind)), E7, E6);
    assert Step(AddChild(s, n, E7), Sep(kind)) == Connect(AddChild(s, n, E7), ConnectorOf(kind));
  }

  /** Reading a particle adds it to the innermost group. */
  lemma {:induction false} ReadParticle(s: State, n: Node)
    requires Waiting(s) && IsParticle(n)
    ensures Run(s, Print(n)) == AddChild(s, n, E7)
    decreases n, 1
  {
    if n.Leaf? {
      RunOne(s, Name(n.name, n.quant));
    } else {
      ReadGroup(s, n);
      var f := FullFrame(n.kind, n.children);
      CloseInner(s, f, n.quant);
      assert Kind(f) == n.kind;
    }
  }

  lemma OpenInside(s: State, kind: GroupKind, children: seq<Node>)
    requires Wf(s) && (s.handler.E1? || Waiting(s))
    ensures var inside := Step(s, Open);
            Waiting(inside) && Top(inside).children == [] &&
            WithFull(inside, kind, children) == s.(frames := s.frames + [FullFrame(kind, children)], handler := E7)
  {
    StepWf(s, Open);
    var inside := Step(s, Open);
    assert inside.frames[..|s.frames|] == s.frames;
  }

  lemma RunWf(s: State, ts: seq<Token>)
    requires Wf(s)
    ensures Wf(Run(s, ts))
  {
    RunConcat(s, ts, []);
  }

  /** Reading a group up to its closing parenthesis, wherever a group may open. */
  lemma {:induction false} ReadGroup(s: State, n: Node)
    requires Wf(s) && n.Group? && IsParticle(n)
    requires s.handler.E1? || Waiting(s)
    ensures var full := s.(frames := s.frames + [FullFrame(n.kind, n.children)], handler := E7);
            Wf(full) && Run(s, Print(n)) == Step(full, Close(n.quant))
    decreases n, 0
  {
    var inner, inside := Joined(n.children, Sep(n.kind)), Step(s, Open);
    OpenInside(s, n.kind, n.children);
    ReadJoined(inside, n.children, n.kind);
    assert [] + n.children == n.children;
    RunWf(inside, inner);
    ReadBracketed(s, Open, inner, Close(n.quant));
    assert Print(n) == [Open] + inner + [Close(n.quant)];
  }

  lemma ReadBracketed(s: State, a: Token, inner: seq<Token>, b: Token)
    requires Wf(s)
    ensures Wf(Step(s, a)) && Wf(Run(Step(s, a), inner))
    ensures Run(s, [a] + inner + [b]) == Step(Run(Step(s, a), inner), b)
  {
    StepWf(s, a);
    RunWf(Step(s, a), inner);
    RunOne(s, a);
    RunConcat(s, [a], inner);
    RunConcat(s, [a] + inner, [b]);
    RunOne(Run(s, [a] + inner), b);
  }

  /** The child read first, then the others. */
  lemma JoinedFull(s: State, kind: GroupKind, first: Node, rest: seq<Node>)
    requires s.frames != []
    ensures var done := Top(s).children;
            var joined := WithTop(s, Frame(false, ConnectorOf(kind), done + [first])).(handler := E6);
            Top(joined) == Frame(false, ConnectorOf(kind), done + [first]) &&
            WithFull(joined, kind, Top(joined).children + rest) == WithFull(s, kind, done + ([first] + rest))
  {
    var done := Top(s).children;
    TopReplaced(s, Frame(false, ConnectorOf(kind), done + [first]), FullFrame(kind, done + ([first] + rest)), E6, E7);
    assert (done + [first]) + rest == done + ([first] + rest);
  }

  /** Reading the rest of a group's children, after those already in its frame. */
  lemma {:induction false} ReadJoined(s: State, nodes: seq<Node>, kind: GroupKind)
    requires Waiting(s) && !kind.Mixed?
    requires nodes != [] && forall c | c in nodes :: IsParticle(c)
    requires Top(s).children == [] || Top(s).conn == ConnectorOf(kind)
    ensures Run(s, Joined(nodes, Sep(kind))) == WithFull(s, kind, Top(s).children + nodes)
    decreases nodes, 0
  {
    var first, rest := nodes[0], nodes[1..];
    ReadParticle(s, first);
    assert nodes == [first] + rest;
    assert PlainFrame(Top(s), true);
    if rest == [] {
      assert nodes == [first];
      assert FullFrame(kind, Top(s).children + nodes) == Top(s).(children := Top(s).children + [first]);
    } else {
      RunThree(s, Print(first), Sep(kind), Joined(rest, Sep(kind)));
      ReadSep(s, first, kind);
      JoinedFull(s, kind, first, rest);
      var joined := Step(AddChild(s, first, E7), Sep(kind));
      ReadJoined(joined, rest, kind);
      assert Joined(nodes, Sep(kind)) == Print(first) + [Sep(kind)] + Joined(rest, Sep(kind));
    }
  }

  /** The text of the names of mixed content, after the first. */
  lemma NamesText(name: string, rest: seq<Node>)
    ensures [Or] + Joined([Leaf(name, One)] + rest, Or) ==
            [Or] + [Name(name, One)] + (if rest == [] then [] else [Or] + Joined(rest, Or))
  {
    var nodes := [Leaf(name, One)] + rest;
    assert nodes[1..] == rest && Print(nodes[0]) == [Name(name, One)];
  }

  lemma AddNames(s: State, first: Node, rest: seq<Node>)
    requires s.frames != []
    ensures var read := AddChild(s, first, E5);
            WithTop(read, Top(read).(children := Top(read).children + rest)).(handler := E5) ==
            WithTop(s, Top(s).(children := Top(s).children + ([first] + rest))).(handler := E5)
  {
    var done := Top(s).children;
    TopReplaced(s, Top(s).(children := done + [first]), Top(s).(children := done + ([first] + rest)), E5, E5);
    assert done + ([first] + rest) == (done + [first]) + rest;
  }

  /** Reading the names of mixed content, each behind its `|`. */
  lemma {:induction false} ReadNames(s: State, nodes: seq<Node>)
    requires Wf(s) && (s.handler.E3? || s.handler.E5?)
    requires nodes != [] && forall c | c in nodes :: c.Leaf? && c.quant.One?
    ensures Run(s, [Or] + Joined(nodes, Or)) == WithTop(s, Top(s).(children := Top(s).children + nodes)).(handler := E5)
    decreases |nodes|
  {
    var first, rest := nodes[0], nodes[1..];
    var more, read := s.(handler := E4), AddChild(s, first, E5);
    RunThree(s, [Or], Name(first.name, One), if rest == [] then [] else [Or] + Joined(rest, Or));
    RunOne(s, Or);
    assert Step(more, Name(first.name, One)) == read;
    NamesText(first.name, rest);
    assert nodes == [first] + rest;
    if rest == [] {
      assert nodes == [first];
    } else {
      StepWf(s, Or);
      StepWf(more, Name(first.name, One));
      ReadNames(read, rest);
      AddNames(s, first, rest);
    }
  }

  function CloseRoot(s: State, root: Node): State { s.(handler := EndDecl, content := Tree(root)) }

  /** The frame of mixed content with these names read. */
  function MixedState(s: State, names: seq<Node>): State {
    s.(frames := [Frame(true, NoConnector, names)], handler := if names == [] then E3 else E5)
  }

  lemma ReadMixedHead(s: State)
    requires Wf(s) && s.handler.E1?
    ensures Run(s, [Open, Pound("PCDATA")]) == MixedState(s, [])
  {
    var inside := OpenGroup(s, E2);
    assert WithTop(inside, Frame(true, NoConnector, [])).frames == [Frame(true, NoConnector, [])];
    RunThree(s, [Open], Pound("PCDATA"), []);
    RunOne(s, Open);
    assert [Open] + [Pound("PCDATA")] + [] == [Open, Pound("PCDATA")];
  }

  lemma ReadMixed(s: State, n: Node)
    requires Wf(s) && s.handler.E1? && IsMixed(n)
    ensures Run(s, Print(n)) == CloseRoot(s, n)
  {
    var head, mixed, full := [Open, Pound("PCDATA")], MixedState(s, []), MixedState(s, n.children);
    var names := if n.children == [] then [] else [Or] + Joined(n.children, Or);
    ReadMixedHead(s);
    if n.children != [] {
      ReadNames(mixed, n.children);
      assert [] + n.children == n.children;
    }
    assert Run(mixed, names) == full;
    RunConcat(s, head, names);
    RunThree(s, head + names, Close(n.quant), []);
    assert Print(n) == head + names + [Close(n.quant)] + [];
    assert full.frames[..0] == s.frames;
  }

  lemma ReadTree(s: State, n: Node)
    requires Wf(s) && s.handler.E1? && n.Group? && IsParticle(n)
    ensures Run(s, Print(n)) == CloseRoot(s, n)
  {
    ReadGroup(s, n);
    var f := FullFrame(n.kind, n.children);
    var full := s.(frames := s.frames + [f], handler := E7);
    assert full.frames[..0] == s.frames && Kind(f) == n.kind;
  }

  /** Completeness: the tokens of every declaration are accepted, wherever white space
      stands between them, and the recogniser ends with that declaration's content. */
  lemma PrintedIsAccepted(d: Decl, ts: seq<Token>)
    requires IsContent(d.content) && Strip(ts) == PrintDecl(d)
    ensures Run(START, ts) == State(Accepted, d.name, [], d.content)
  {
    RunStrip(START, ts);
    var named := State(E1, d.name, [], Empty);
    var content := PrintContent(d.content);
    RunThree(START, [], Name(d.name, One), content + [DeclClose]);
    assert PrintDecl(d) == [] + [Name(d.name, One)] + (content + [DeclClose]);
    RunThree(named, content, DeclClose, []);
    assert content + [DeclClose] == content + [DeclClose] + [];
    if d.content.Tree? {
      if IsMixed(d.content.root) {
        ReadMixed(named, d.content.root);
      } else {
        ReadTree(named, d.content.root);
      }
    } else {
      RunOne(named, content[0]);
    }
  }

  // ----- everything accepted is printed

  /** The children each followed by the separator. */
  function Each(nodes: seq<Node>, sep: Token): seq<Token>
  {
    if nodes == [] then [] else Each(nodes[..|nodes| - 1], sep) + Print(nodes[|nodes| - 1]) + [sep]
  }

  function SepOf(f: Frame): Token { if f.conn.CommaConnector? then Comma else Or }

  /** The tokens read inside an open group so far; `more` if a child is still to come. */
  function ReadSoFar(f: Frame, more: bool): seq<Token> {
    if f.mixed then
      [Open, Pound("PCDATA")] + (if f.children == [] then [] else [Or] + Joined(f.children, Or)) + (if more then [Or] else [])
    else [Open] + (if more then Each(f.children, SepOf(f)) else Joined(f.children, SepOf(f)))
  }

  function ReadFrames(frames: seq<Frame>, more: bool): seq<Token> {
    if frames == [] then []
    else ReadFrames(frames[..|frames| - 1], true) + ReadSoFar(frames[|frames| - 1], more)
  }

  /** The tokens that lead to a state. */
  function ReadAll(s: State): seq<Token>
  {
    match s.handler
    case E0 => []
    case EndDecl => [Name(s.name, One)] + PrintContent(s.content)
    case Accepted => [Name(s.name, One)] + PrintContent(s.content) + [DeclClose]
    case _ => [Name(s.name, One)] + ReadFrames(s.frames, s.handler.E4? || s.handler.E6?)
  }

  lemma {:induction false} JoinedSnoc(nodes: seq<Node>, n: Node, sep: Token)
    ensures Joined(nodes + [n], sep) == (if nodes == [] then [] else Joined(nodes, sep) + [sep]) + Print(n)
    decreases |nodes|
  {
    if nodes == [] {
      assert nodes + [n] == [n];
    } else {
      JoinedSnoc(nodes[1..], n, sep);
      assert (nodes + [n])[1..] == nodes[1..] + [n];
      var first, rest := Print(nodes[0]), Joined(nodes[1..], sep);
      if |nodes| == 1 {
        assert Joined(nodes + [n], sep) == first + [sep] + ([] + Print(n));
      } else {
        assert first + [sep] + ((rest + [sep]) + Print(n)) == ((first + [sep] + rest) + [sep]) + Print(n);
      }
    }
  }

  lemma {:induction false} EachIsJoined(nodes: seq<Node>, sep: Token)
    requires nodes != []
    ensures Each(nodes, sep) == Joined(nodes, sep) + [sep]
    decreases |nodes|
  {
    var front, last := nodes[..|nodes| - 1], nodes[|nodes| - 1];
    assert nodes == front + [last];
    JoinedSnoc(front, last, sep);
    if front != [] {
      EachIsJoined(front, sep);
    }
  }

  /** A group of one child reads the same with any separator. */
  lemma JoinedSingle(nodes: seq<Node>, a: Token, b: Token)
    requires |nodes| <= 1
    ensures Joined(nodes, a) == Joined(nodes, b)
  {
  }

  lemma FramesSnoc(frames: seq<Frame>, f: Frame, more: bool)
    ensures ReadFrames(frames + [f], more) == ReadFrames(frames, true) + ReadSoFar(f, more)
  {
    assert (frames + [f])[..|frames|] == frames;
  }

  /** A particle completes the text of the plain group it is added to. */
  lemma AddReads(f: Frame, n: Node)
    requires !f.mixed
    ensures ReadSoFar(f, true) + Print(n) == ReadSoFar(f.(children := f.children + [n]), false)
  {
    var sep := SepOf(f);
    JoinedSnoc(f.children, n, sep);
    if f.children != [] {
      EachIsJoined(f.children, sep);
    }
    assert [Open] + (Each(f.children, sep) + Print(n)) == [Open] + Each(f.children, sep) + Print(n);
  }

  lemma SeparatorReads(f: Frame, c: Connector)
    requires PlainFrame(f, false) && !c.NoConnector? && (f.conn == NoConnector || f.conn == c)
    ensures ReadSoFar(f, false) + [SepOf(f.(conn := c))] == ReadSoFar(f.(conn := c), true)
  {
    var sep := SepOf(f.(conn := c));
    EachIsJoined(f.children, sep);
    if f.conn == NoConnector {
      JoinedSingle(f.children, SepOf(f), sep);
    }
    assert [Open] + (Joined(f.children, sep) + [sep]) == [Open] + Joined(f.children, sep) + [sep];
  }

  /** The text of a group that closes. */
  lemma CloseReads(f: Frame, q: Quant)
    requires PlainFrame(f, false) || MixedFrame(f)
    ensures ReadSoFar(f, false) + [Close(q)] == Print(Group(Kind(f), q, f.children))
  {
    if !f.mixed {
      if f.conn == NoConnector {
        JoinedSingle(f.children, SepOf(f), Sep(Kind(f)));
      }
    }
  }

  lemma MixedReads(f: Frame, name: string)
    requires MixedFrame(f)
    ensures ReadSoFar(f, true) + [Name(name, One)] ==
            ReadSoFar(f.(children := f.children + [Leaf(name, One)]), false)
  {
    JoinedSnoc(f.children, Leaf(name, One), Or);
    var head, tail := [Open, Pound("PCDATA")], [Name(name, One)];
    var joined := Joined(f.children, Or);
    if f.children == [] {
      assert head + [] + [Or] + tail == head + ([Or] + ([] + tail)) + [];
    } else {
      assert head + ([Or] + joined) + [Or] + tail == head + ([Or] + (joined + [Or] + tail)) + [];
    }
  }

  lemma AppendRight(a: seq<Token>, b: seq<Token>, c: seq<Token>, d: seq<Token>)
    requires b + c == d
    ensures (a + b) + c == a + d
  {
    assert (a + b) + c == a + (b + c);
  }

  lemma {:induction false} CloseGroupReads(s: State, q: Quant)
    requires Wf(s) && (s.handler.E3? || s.handler.E5? || s.handler.E7?)
    ensures ReadAll(CloseGroup(s, q)) == ReadAll(s) + [Close(q)]
  {
    var f := Top(s);
    var n := Group(Kind(f), q, f.children);
    var outer := s.frames[..|s.frames| - 1];
    var head := [Name(s.name, One)];
    CloseReads(f, q);
    AppendRight(ReadFrames(outer, true), ReadSoFar(f, false), [Close(q)], Print(n));
    AppendRight(head, ReadFrames(s.frames, false), [Close(q)], ReadFrames(outer, true) + Print(n));
    if outer == [] {
      assert ReadFrames(outer, true) + Print(n) == Print(n);
    } else {
      ParticleReads(outer, n);
    }
  }

  /** The innermost group before and after a particle, with the groups around it. */
  lemma ParticleReads(frames: seq<Frame>, n: Node)
    requires frames != [] && !frames[|frames| - 1].mixed
    ensures var f := frames[|frames| - 1];
            ReadFrames(frames, true) + Print(n) ==
            ReadFrames(frames[..|frames| - 1] + [f.(children := f.children + [n])], false)
  {
    var f, around := frames[|frames| - 1], frames[..|frames| - 1];
    AddReads(f, n);
    FramesSnoc(around, f.(children := f.children + [n]), false);
    AppendRight(ReadFrames(around, true), ReadSoFar(f, true), Print(n),
      ReadSoFar(f.(children := f.children + [n]), false));
  }

  /** Before its first child a group has the same text either way. */
  lemma WaitingText(s: State)
    requires Wf(s) && (s.handler.E6? || s.handler.E2?)
    ensures ReadAll(s) == [Name(s.name, One)] + ReadFrames(s.frames, true)
  {
    if s.handler.E2? {
      assert ReadSoFar(s.frames[0], false) == ReadSoFar(s.frames[0], true);
    }
  }

  lemma OpenReads(s: State)
    requires Wf(s) && (s.handler.E6? || s.handler.E2?)
    ensures ReadAll(OpenGroup(s, E6)) == ReadAll(s) + [Open]
  {
    var f := Frame(false, NoConnector, []);
    WaitingText(s);
    FramesSnoc(s.frames, f, true);
    assert ReadSoFar(f, true) == [Open];
    AppendRight([Name(s.name, One)], ReadFrames(s.frames, true), [Open], ReadFrames(s.frames + [f], true));
  }

  lemma LeafReads(s: State, n: Node)
    requires Wf(s) && (s.handler.E6? || s.handler.E2?)
    ensures ReadAll(AddChild(s, n, E7)) == ReadAll(s) + Print(n)
  {
    var f := Top(s);
    WaitingText(s);
    AddReads(f, n);
    LastFrameReads(s, Print(n), f.(children := f.children + [n]), true, false);
  }

  lemma WaitingReads(s: State, t: Token)
    requires Wf(s) && (s.handler.E6? || (s.handler.E2? && !t.Pound?)) && !t.Space?
    requires !Step(s, t).handler.Error?
    ensures ReadAll(Step(s, t)) == ReadAll(s) + [t]
  {
    if t.Open? {
      OpenReads(s);
      assert Step(s, t) == OpenGroup(s, E6);
    } else {
      LeafReads(s, Leaf(t.name, t.quant));
      assert Step(s, t) == AddChild(s, Leaf(t.name, t.quant), E7);
    }
  }

  lemma LastFrameReads(s: State, text: seq<Token>, f: Frame, more: bool, more': bool)
    requires s.frames != [] && ReadSoFar(Top(s), more) + text == ReadSoFar(f, more')
    ensures [Name(s.name, One)] + ReadFrames(s.frames, more) + text ==
            [Name(s.name, One)] + ReadFrames(WithTop(s, f).frames, more')
  {
    var around := s.frames[..|s.frames| - 1];
    FramesSnoc(around, f, more');
    AppendRight(ReadFrames(around, true), ReadSoFar(Top(s), more), text, ReadSoFar(f, more'));
    AppendRight([Name(s.name, One)], ReadFrames(s.frames, more), text, ReadFrames(WithTop(s, f).frames, more'));
  }

  lemma OpeningReads(s: State, t: Token)
    requires Wf(s) && (s.handler.E0? || s.handler.E1? || s.handler.EndDecl?) && !t.Space?
    requires !Step(s, t).handler.Error?
    ensures ReadAll(Step(s, t)) == ReadAll(s) + [t]
  {
    var head, next := [Name(s.name, One)], Step(s, t);
    if s.handler.E1? {
      assert ReadAll(s) == head + [] == head;
      if t.Open? {
        var f := Frame(false, NoConnector, []);
        FramesSnoc([], f, false);
        assert ReadSoFar(f, false) == [Open] && [] + [f] == [f];
        assert next.frames == [f];
      } else {
        assert next.handler.EndDecl? && PrintContent(next.content) == [t];
      }
    }
  }

  lemma BarReads(f: Frame)
    requires MixedFrame(f)
    ensures ReadSoFar(f, false) + [Or] == ReadSoFar(f, true)
  {
    var text := [Open, Pound("PCDATA")] + (if f.children == [] then [] else [Or] + Joined(f.children, Or));
    assert text + [] == text;
  }

  lemma MixedStepReads(s: State, t: Token)
    requires Wf(s) && (s.handler.E3? || s.handler.E4? || s.handler.E5?) && !t.Space?
    requires !Step(s, t).handler.Error?
    ensures ReadAll(Step(s, t)) == ReadAll(s) + [t]
  {
    if s.handler.E4? {
      MixedReads(Top(s), t.name);
      LastFrameReads(s, [t], Top(s).(children := Top(s).children + [Leaf(t.name, One)]), true, false);
      assert Step(s, t) == AddChild(s, Leaf(t.name, One), E5);
    } else if t.Or? {
      BarReads(Top(s));
      LastFrameReads(s, [t], Top(s), false, true);
      assert WithTop(s, Top(s)).frames == s.frames;
    } else {
      CloseGroupReads(s, t.quant);
      assert Step(s, t) == CloseGroup(s, t.quant);
    }
  }

  lemma GroupStepReads(s: State, t: Token)
    requires Wf(s) && s.handler.E7? && !t.Space? && !Step(s, t).handler.Error?
    ensures ReadAll(Step(s, t)) == ReadAll(s) + [t]
  {
    if t.Close? {
      CloseGroupReads(s, t.quant);
    } else {
      var c := if t.Comma? then CommaConnector else OrConnector;
      SeparatorReads(Top(s), c);
      LastFrameReads(s, [t], Top(s).(conn := c), false, true);
    }
  }

  /** Every step the recogniser takes reads exactly its token. */
  lemma StepReads(s: State, t: Token)
    requires Wf(s) && !t.Space? && !Step(s, t).handler.Error?
    ensures ReadAll(Step(s, t)) == ReadAll(s) + [t]
  {
    match s.handler
    case E0 | E1 | EndDecl => OpeningReads(s, t);
    case E3 | E4 | E5 => MixedStepReads(s, t);
    case E7 => GroupStepReads(s, t);
    case _ =>
      if t.Pound? {
        LastFrameReads(s, [t], Frame(true, NoConnector, []), false, false);
      } else {
        WaitingReads(s, t);
      }
  }

  lemma {:induction false} ErrorStays(s: State, ts: seq<Token>)
    requires s.handler.Error?
    ensures Run(s, ts).handler.Error?
    decreases |ts|
  {
    if ts != [] {
      ErrorStays(Step(s, ts[0]), ts[1..]);
    }
  }

  lemma FirstReads(s: State, ts: seq<Token>)
    requires Wf(s) && ts != [] && !Run(s, ts).handler.Error?
    ensures Wf(Step(s, ts[0])) && !Step(s, ts[0]).handler.Error?
    ensures ReadAll(Step(s, ts[0])) + Strip(ts[1..]) == ReadAll(s) + Strip(ts)
  {
    var next := Step(s, ts[0]);
    StepWf(s, ts[0]);
    if next.handler.Error? {
      ErrorStays(next, ts[1..]);
    } else if ts[0].Space? {
      assert Strip(ts) == Strip(ts[1..]);
    } else {
      StepReads(s, ts[0]);
      AppendRight(ReadAll(s), [ts[0]], Strip(ts[1..]), Strip(ts));
    }
  }

  lemma {:induction false} RunReads(s: State, ts: seq<Token>)
    requires Wf(s) && !Run(s, ts).handler.Error?
    ensures Wf(Run(s, ts)) && ReadAll(Run(s, ts)) == ReadAll(s) + Strip(ts)
    decreases |ts|
  {
    if ts == [] {
      assert ReadAll(s) + [] == ReadAll(s);
    } else {
      FirstReads(s, ts);
      RunReads(Step(s, ts[0]), ts[1..]);
    }
  }

  /** Exactness: the recogniser accepts a token sequence, with a name and a content, if
      and only if the content is one of the productions and the tokens are its text with
      white space between them. */
  lemma AcceptsExactly(ts: seq<Token>, d: Decl)
    ensures (IsContent(d.content) && Strip(ts) == PrintDecl(d)) <==>
            Run(START, ts) == State(Accepted, d.name, [], d.content)
  {
    if IsContent(d.content) && Strip(ts) == PrintDecl(d) {
      PrintedIsAccepted(d, ts);
    }
    if Run(START, ts) == State(Accepted, d.name, [], d.content) {
      RunReads(START, ts);
      assert [] + Strip(ts) == Strip(ts);
      assert [Name(d.name, One)] + PrintContent(d.content) + [DeclClose] == PrintDecl(d);
    }
  }

  /** A declaration's text determines it. */
  lemma PrintInjective(d: Decl, e: Decl)
    requires IsContent(d.content) && IsContent(e.content) && PrintDecl(d) == PrintDecl(e)
    ensures d == e
  {
    var ts := PrintDecl(d);
    StripFixed(ts);
    NoSpaces(d);
    AcceptsExactly(ts, d);
    AcceptsExactly(ts, e);
  }

  lemma {:induction false} StripFixed(ts: seq<Token>)
    ensures (forall t | t in ts :: !t.Space?) ==> Strip(ts) == ts
    decreases |ts|
  {
    if ts != [] {
      StripFixed(ts[1..]);
    }
  }

  lemma NoSpaces(d: Decl)
    ensures forall t | t in PrintDecl(d) :: !t.Space?
  {
    if d.content.Tree? {
      NoSpacesIn(d.content.root);
    }
  }

  lemma {:induction false} NoSpacesIn(n: Node)
    ensures forall t | t in Print(n) :: !t.Space?
    decreases n, 1
  {
    if n.Group? {
      NoSpacesBetween(n.children, Sep(n.kind));
    }
  }

  lemma {:induction false} NoSpacesBetween(nodes: seq<Node>, sep: Token)
    requires !sep.Space?
    ensures forall t | t in Joined(nodes, sep) :: !t.Space?
    decreases nodes, 0
  {
    if nodes != [] {
      NoSpacesIn(nodes[0]);
      NoSpacesBetween(nodes[1..], sep);
    }
  }
}
