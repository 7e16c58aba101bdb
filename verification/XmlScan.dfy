/** The reference tokenizer: automata for the tokens that start with `<` or `&`
    (expat/xmltok_impl.c:87-123, 174-299, 377-518, 520-779), two run scanners for
    character data (expat/xmltok_impl.c:301-375, 781-876), and what a longer buffer may
    change in what they return. */
module XmlScan {
  import opened Endian
  import opened XmlBytes

  datatype Kind =
    | StartNoAtts | StartWithAtts | EmptyNoAtts | EmptyWithAtts | EndTag
    | DataChars | DataNewline | EntityRef | CharRef | CdataOpen | CdataClose
    | Pi | XmlDecl | Comment

  /** The result of a scanner: the token code and, where the source sets it, the place
      `*nextTokPtr` is left at. */
  datatype Token =
    | NoToken | Partial | PartialChar | TrailingCr | TrailingRsqb
    | Invalid(at: nat)
    | Tok(kind: Kind, next: nat)

  /** One move of an automaton: the token ends here, or the scan goes on in a state. */
  datatype Move<St> = Stop(t: Token) | Go(i: nat, st: St)

  /** A stop at `i` is a cut, an error, or a markup token that ends later. */
  ghost predicate Stops(t: Token, s: seq<Byte>, i: nat) {
    t.Partial? || t.PartialChar? || (t.Invalid? && i <= t.at < |s|) ||
    (t.Tok? && i < t.next <= |s| && !t.kind.DataChars?)
  }

  ghost predicate Moves<St>(m: Move<St>, s: seq<Byte>, i: nat) {
    (m.Stop? ==> Stops(m.t, s, i)) && (m.Go? ==> i < m.i <= |s|)
  }

  /** A character that keeps or enters state `st`, unless it is the state's own case. */
  function OnChar<St>(c: CharRes, i: nat, st: St, own: Move<St>): Move<St> {
    match c
    case Short => Stop(PartialChar)
    case Bad => Stop(Invalid(i))
    case Skip(n) => Go(i + n, st)
    case Own => own
  }

  /** The scanner cannot tell yet: it needs more bytes. */
  predicate Undecided(t: Token) {
    t.NoToken? || t.Partial? || t.PartialChar? || t.TrailingCr? || t.TrailingRsqb?
  }

  // ----- comments, after "<!-"

  datatype CommentState = CommentFirst | CommentBody | CommentDash | CommentEnd

  function CommentChar(enc: Encoding, s: seq<Byte>, i: nat): Move<CommentState>
    requires i < |s|
  {
    OnChar(ValidStep(enc, s, i), i, CommentBody,
      Go(i + 1, if enc.byteType(s[i]).Minus? then CommentDash else CommentBody))
  }

  function CommentStep(enc: Encoding, s: seq<Byte>, i: nat, st: CommentState): (m: Move<CommentState>)
    requires i < |s|
    ensures Moves(m, s, i)
  {
    match st
    case CommentFirst => if s[i] == ASCII_MINUS then Go(i + 1, CommentBody) else Stop(Invalid(i))
    case CommentBody => CommentChar(enc, s, i)
    case CommentDash => if s[i] == ASCII_MINUS then Go(i + 1, CommentEnd) else CommentChar(enc, s, i)
    case CommentEnd => if s[i] == ASCII_GT then Stop(Tok(Comment, i + 1)) else Stop(Invalid(i))
  }

  function CommentRun(enc: Encoding, s: seq<Byte>, i: nat, st: CommentState): (t: Token)
    requires i <= |s|
    ensures Stops(t, s, i)
    decreases |s| - i
  {
    if i == |s| then Partial
    else
      match CommentStep(enc, s, i, st)
      case Stop(t) => t
      case Go(j, next) => CommentRun(enc, s, j, next)
  }

  // ----- processing instructions, after "<?"

  datatype PiState = PiFirst | PiName | PiNameQuest(decl: bool) | PiBody(decl: bool) | PiQuest(decl: bool)

  /** What the target of a processing instruction makes of it. */
  datatype Target = Plain | Declaration | Miscased

  /** `checkPiTarget` on the bytes from `target` up to `i`. */
  function PiTarget(s: seq<Byte>, target: nat, i: nat): Target
    requires target <= i <= |s|
  {
    if i - target != 3 then Plain
    else
      var a, b, c := s[target], s[target + 1], s[target + 2];
      if (a == 0x78 || a == 0x58) && (b == 0x6D || b == 0x4D) && (c == 0x6C || c == 0x4C) then
        if a == 0x78 && b == 0x6D && c == 0x6C then Declaration else Miscased
      else Plain
  }

  function PiKind(decl: bool): Kind { if decl then XmlDecl else Pi }

  function PiChar(enc: Encoding, s: seq<Byte>, i: nat, decl: bool): Move<PiState>
    requires i < |s|
  {
    OnChar(ValidStep(enc, s, i), i, PiBody(decl),
      Go(i + 1, if enc.byteType(s[i]).Quest? then PiQuest(decl) else PiBody(decl)))
  }

  function PiStep(enc: Encoding, s: seq<Byte>, target: nat, i: nat, st: PiState): (m: Move<PiState>)
    requires target <= i < |s|
    ensures Moves(m, s, i)
  {
    var t := enc.byteType(s[i]);
    match st
    case PiFirst => OnChar(NmstrtStep(enc, s, i), i, PiName, Stop(Invalid(i)))
    case PiName =>
      OnChar(NameStep(enc, s, i), i, PiName,
        var k := PiTarget(s, target, i);
        if (!IsSpace(t) && !t.Quest?) || k.Miscased? then Stop(Invalid(i))
        else Go(i + 1, if t.Quest? then PiNameQuest(k.Declaration?) else PiBody(k.Declaration?)))
    case PiNameQuest(decl) => if s[i] == ASCII_GT then Stop(Tok(PiKind(decl), i + 1)) else Stop(Invalid(i))
    case PiBody(decl) => PiChar(enc, s, i, decl)
    case PiQuest(decl) => if s[i] == ASCII_GT then Stop(Tok(PiKind(decl), i + 1)) else PiChar(enc, s, i, decl)
  }

  function PiRun(enc: Encoding, s: seq<Byte>, target: nat, i: nat, st: PiState): (t: Token)
    requires target <= i <= |s|
    ensures Stops(t, s, i)
    decreases |s| - i
  {
    if i == |s| then Partial
    else
      match PiStep(enc, s, target, i, st)
      case Stop(t) => t
      case Go(j, next) => PiRun(enc, s, target, j, next)
  }

  // ----- end tags, after "</"

  datatype EndState = EndFirst | EndName | EndGap

  function EndStep(enc: Encoding, s: seq<Byte>, i: nat, st: EndState): (m: Move<EndState>)
    requires i < |s|
    ensures Moves(m, s, i)
  {
    var t := enc.byteType(s[i]);
    var close := if IsSpace(t) then Go(i + 1, EndGap)
                 else if t.Gt? then Stop(Tok(EndTag, i + 1))
                 else Stop(Invalid(i));
    match st
    case EndFirst => OnChar(NmstrtStep(enc, s, i), i, EndName, Stop(Invalid(i)))
    case EndName => OnChar(NameStep(enc, s, i), i, EndName, if t.Colon? then Go(i + 1, EndName) else close)
    case EndGap => close
  }

  function EndRun(enc: Encoding, s: seq<Byte>, i: nat, st: EndState): (t: Token)
    requires i <= |s|
    ensures Stops(t, s, i)
    decreases |s| - i
  {
    if i == |s| then Partial
    else
      match EndStep(enc, s, i, st)
      case Stop(t) => t
      case Go(j, next) => EndRun(enc, s, j, next)
  }

  // ----- references, after "&"

  datatype RefState = RefFirst | RefName | NumFirst | NumDec | NumHexFirst | NumHex

  function RefStep(enc: Encoding, s: seq<Byte>, i: nat, st: RefState): (m: Move<RefState>)
    requires i < |s|
    ensures Moves(m, s, i)
  {
    var t := enc.byteType(s[i]);
    match st
    case RefFirst =>
      OnChar(NmstrtStep(enc, s, i), i, RefName, if t.Num? then Go(i + 1, NumFirst) else Stop(Invalid(i)))
    case RefName =>
      OnChar(NameStep(enc, s, i), i, RefName, if t.Semi? then Stop(Tok(EntityRef, i + 1)) else Stop(Invalid(i)))
    case NumFirst =>
      if s[i] == 0x78 then Go(i + 1, NumHexFirst)
      else if t.Digit? then Go(i + 1, NumDec)
      else Stop(Invalid(i))
    case NumDec =>
      if t.Digit? then Go(i + 1, NumDec)
      else if t.Semi? then Stop(Tok(CharRef, i + 1))
      else Stop(Invalid(i))
    case NumHexFirst => if t.Digit? || t.Hex? then Go(i + 1, NumHex) else Stop(Invalid(i))
    case NumHex =>
      if t.Digit? || t.Hex? then Go(i + 1, NumHex)
      else if t.Semi? then Stop(Tok(CharRef, i + 1))
      else Stop(Invalid(i))
  }

  function RefRun(enc: Encoding, s: seq<Byte>, i: nat, st: RefState): (t: Token)
    requires i <= |s|
    ensures Stops(t, s, i)
    decreases |s| - i
  {
    if i == |s| then Partial
    else
      match RefStep(enc, s, i, st)
      case Stop(t) => t
      case Go(j, next) => RefRun(enc, s, j, next)
  }

  // ----- attributes, after the first character of a name

  /** One character, or one reference, inside an attribute value. */
  function ValueStep(enc: Encoding, s: seq<Byte>, i: nat, quote: ByteType): (m: Move<AttState>)
    requires i < |s|
    ensures m.Stop? ==> Stops(m.t, s, i)
    ensures m.Go? ==> i < m.i <= |s|
  {
    var b := enc.byteType(s[i]);
    if b == quote then Go(i + 1, AttClosed)
    else
      OnChar(ValidStep(enc, s, i), i, AttOpen,
        if b.Amp? then
          var r := RefRun(enc, s, i + 1, RefFirst);
          if r.Tok? then Go(r.next, AttOpen) else Stop(r)
        else if b.Lt? then Stop(Invalid(i))
        else Go(i + 1, AttOpen))
  }

  /** Inside an attribute value: on past the closing quote. */
  function ValueRun(enc: Encoding, s: seq<Byte>, i: nat, quote: ByteType): (m: Move<AttState>)
    requires i <= |s|
    ensures m.Stop? ==> Stops(m.t, s, i)
    ensures m.Go? ==> i < m.i <= |s| && m.st == AttClosed
    decreases |s| - i
  {
    if i == |s| then Stop(Partial)
    else
      var m := ValueStep(enc, s, i, quote);
      if m.Stop? || m.st.AttClosed? then m else ValueRun(enc, s, m.i, quote)
  }

  datatype AttState = AttName(colon: bool) | AttColon | AttEquals | AttOpen | AttClosed | AttGap

  /** After the `/` of an empty-element tag. */
  function SlashEnd(s: seq<Byte>, i: nat, atts: bool): (t: Token)
    requires i <= |s|
    ensures Stops(t, s, i)
  {
    if i == |s| then Partial
    else if s[i] == ASCII_GT then Tok(if atts then EmptyWithAtts else EmptyNoAtts, i + 1)
    else Invalid(i)
  }

  /** A byte after an attribute value that starts no name. */
  function AttClose(enc: Encoding, s: seq<Byte>, i: nat): (m: Move<AttState>)
    requires i < |s|
    ensures Moves(m, s, i)
  {
    var t := enc.byteType(s[i]);
    if IsSpace(t) then Go(i + 1, AttGap)
    else if t.Gt? then Stop(Tok(StartWithAtts, i + 1))
    else if t.Sol? then Stop(SlashEnd(s, i + 1, true))
    else Stop(Invalid(i))
  }

  function AttStep(enc: Encoding, s: seq<Byte>, i: nat, st: AttState): (m: Move<AttState>)
    requires i < |s|
    ensures Moves(m, s, i)
  {
    var t := enc.byteType(s[i]);
    match st
    case AttName(colon) =>
      OnChar(NameStep(enc, s, i), i, st,
        if t.Colon? && !colon then Go(i + 1, AttColon)
        else if IsSpace(t) then Go(i + 1, AttEquals)
        else if t.Equals? then Go(i + 1, AttOpen)
        else Stop(Invalid(i)))
    case AttColon => OnChar(NmstrtStep(enc, s, i), i, AttName(true), Stop(Invalid(i)))
    case AttEquals =>
      if t.Equals? then Go(i + 1, AttOpen) else if IsSpace(t) then Go(i + 1, st) else Stop(Invalid(i))
    case AttOpen =>
      if t.Quot? || t.Apos? then ValueRun(enc, s, i + 1, t)
      else if IsSpace(t) then Go(i + 1, st)
      else Stop(Invalid(i))
    case AttClosed => AttClose(enc, s, i)
    case AttGap => OnChar(NmstrtStep(enc, s, i), i, AttName(false), AttClose(enc, s, i))
  }

  function AttRun(enc: Encoding, s: seq<Byte>, i: nat, st: AttState): (t: Token)
    requires i <= |s|
    ensures Stops(t, s, i)
    decreases |s| - i
  {
    if i == |s| then Partial
    else
      match AttStep(enc, s, i, st)
      case Stop(t) => t
      case Go(j, next) => AttRun(enc, s, j, next)
  }

  // ----- the element name of a start tag

  datatype TagState = TagName(colon: bool) | TagColon | TagGap | TagAtts

  function TagStep(enc: Encoding, s: seq<Byte>, i: nat, st: TagState): (m: Move<TagState>)
    requires i < |s| && !st.TagAtts?
    ensures Moves(m, s, i)
  {
    var t := enc.byteType(s[i]);
    var close := if IsSpace(t) then Go(i + 1, TagGap)
                 else if t.Gt? then Stop(Tok(StartNoAtts, i + 1))
                 else if t.Sol? then Stop(SlashEnd(s, i + 1, false))
                 else Stop(Invalid(i));
    match st
    case TagName(colon) =>
      OnChar(NameStep(enc, s, i), i, st, if t.Colon? && !colon then Go(i + 1, TagColon) else close)
    case TagColon => OnChar(NmstrtStep(enc, s, i), i, TagName(true), Stop(Invalid(i)))
    case TagGap => OnChar(NmstrtStep(enc, s, i), i, TagAtts, close)
  }

  function TagRun(enc: Encoding, s: seq<Byte>, i: nat, st: TagState): (t: Token)
    requires i <= |s|
    ensures Stops(t, s, i)
    decreases |s| - i
  {
    if st.TagAtts? then AttRun(enc, s, i, AttName(false))
    else if i == |s| then Partial
    else
      match TagStep(enc, s, i, st)
      case Stop(t) => t
      case Go(j, next) => TagRun(enc, s, j, next)
  }

  // ----- everything after "<"

  /** The first place where six bytes differ from "CDATA[". */
  function Mismatch(w: seq<Byte>): (k: nat)
    requires |w| == 6 && w != CDATA_LSQB
    ensures k < 6 && w[k] != CDATA_LSQB[k] && w[..k] == CDATA_LSQB[..k]
  {
    if w[0] != CDATA_LSQB[0] then 0 else if w[1] != CDATA_LSQB[1] then 1
    else if w[2] != CDATA_LSQB[2] then 2 else if w[3] != CDATA_LSQB[3] then 3
    else if w[4] != CDATA_LSQB[4] then 4 else 5
  }

  lemma MismatchAt(w: seq<Byte>, i: nat)
    requires |w| == 6 && i < 6 && w[..i] == CDATA_LSQB[..i] && w[i] != CDATA_LSQB[i]
    ensures w != CDATA_LSQB && Mismatch(w) == i
  {
    assert forall j :: 0 <= j < i ==> w[j] == w[..i][j] == CDATA_LSQB[..i][j] == CDATA_LSQB[j];
  }

  function CdataWord(s: seq<Byte>, i: nat): (t: Token)
    requires i <= |s|
    ensures Stops(t, s, i)
  {
    if |s| - i < 6 then Partial
    else if s[i..i + 6] == CDATA_LSQB then Tok(CdataOpen, i + 6)
    else Invalid(i + Mismatch(s[i..i + 6]))
  }

  function LtRun(enc: Encoding, s: seq<Byte>, i: nat): (t: Token)
    requires i <= |s|
    ensures Stops(t, s, i)
  {
    if i == |s| then Partial
    else
      var b := enc.byteType(s[i]);
      match NmstrtStep(enc, s, i)
      case Short => PartialChar
      case Bad => Invalid(i)
      case Skip(n) => TagRun(enc, s, i + n, TagName(false))
      case Own =>
        if b.Excl? then
          if i + 1 == |s| then Partial
          else if enc.byteType(s[i + 1]).Minus? then CommentRun(enc, s, i + 2, CommentFirst)
          else if enc.byteType(s[i + 1]).Lsqb? then CdataWord(s, i + 2)
          else Invalid(i + 1)
        else if b.Quest? then PiRun(enc, s, i + 1, i + 1, PiFirst)
        else if b.Sol? then EndRun(enc, s, i + 1, EndFirst)
        else Invalid(i)
  }

  // ----- a longer buffer changes no decided token

  lemma {:induction false} CommentStable(enc: Encoding, s: seq<Byte>, u: seq<Byte>, i: nat, st: CommentState)
    requires s <= u && i <= |s| && !Undecided(CommentRun(enc, s, i, st))
    ensures CommentRun(enc, u, i, st) == CommentRun(enc, s, i, st)
    decreases |s| - i
  {
    CharStable(enc, s, u, i);
    var m := CommentStep(enc, s, i, st);
    if m.Go? { CommentStable(enc, s, u, m.i, m.st); }
  }

  lemma {:induction false} PiStable(enc: Encoding, s: seq<Byte>, u: seq<Byte>, target: nat, i: nat, st: PiState)
    requires s <= u && target <= i <= |s| && !Undecided(PiRun(enc, s, target, i, st))
    ensures PiRun(enc, u, target, i, st) == PiRun(enc, s, target, i, st)
    decreases |s| - i
  {
    CharStable(enc, s, u, i);
    var m := PiStep(enc, s, target, i, st);
    if m.Go? { PiStable(enc, s, u, target, m.i, m.st); }
  }

  lemma {:induction false} EndStable(enc: Encoding, s: seq<Byte>, u: seq<Byte>, i: nat, st: EndState)
    requires s <= u && i <= |s| && !Undecided(EndRun(enc, s, i, st))
    ensures EndRun(enc, u, i, st) == EndRun(enc, s, i, st)
    decreases |s| - i
  {
    CharStable(enc, s, u, i);
    var m := EndStep(enc, s, i, st);
    if m.Go? { EndStable(enc, s, u, m.i, m.st); }
  }

  lemma {:induction false} RefStable(enc: Encoding, s: seq<Byte>, u: seq<Byte>, i: nat, st: RefState)
    requires s <= u && i <= |s| && !Undecided(RefRun(enc, s, i, st))
    ensures RefRun(enc, u, i, st) == RefRun(enc, s, i, st)
    decreases |s| - i
  {
    CharStable(enc, s, u, i);
    var m := RefStep(enc, s, i, st);
    if m.Go? { RefStable(enc, s, u, m.i, m.st); }
  }

  lemma ValueStepStable(enc: Encoding, s: seq<Byte>, u: seq<Byte>, i: nat, quote: ByteType)
    requires s <= u && i < |s|
    requires var m := ValueStep(enc, s, i, quote); m.Stop? ==> !Undecided(m.t)
    ensures ValueStep(enc, u, i, quote) == ValueStep(enc, s, i, quote)
  {
    CharStable(enc, s, u, i);
    if enc.byteType(s[i]).Amp? && !Undecided(RefRun(enc, s, i + 1, RefFirst)) {
      RefStable(enc, s, u, i + 1, RefFirst);
    }
  }

  lemma {:induction false} ValueStable(enc: Encoding, s: seq<Byte>, u: seq<Byte>, i: nat, quote: ByteType)
    requires s <= u && i <= |s|
    requires var m := ValueRun(enc, s, i, quote); m.Stop? ==> !Undecided(m.t)
    ensures ValueRun(enc, u, i, quote) == ValueRun(enc, s, i, quote)
    decreases |s| - i
  {
    ValueStepStable(enc, s, u, i, quote);
    var m := ValueStep(enc, s, i, quote);
    if m.Go? && !m.st.AttClosed? { ValueStable(enc, s, u, m.i, quote); }
  }

  lemma AttStepStable(enc: Encoding, s: seq<Byte>, u: seq<Byte>, i: nat, st: AttState)
    requires s <= u && i < |s|
    requires var m := AttStep(enc, s, i, st); m.Stop? ==> !Undecided(m.t)
    ensures AttStep(enc, u, i, st) == AttStep(enc, s, i, st)
  {
    CharStable(enc, s, u, i);
    var t := enc.byteType(s[i]);
    if st.AttOpen? && (t.Quot? || t.Apos?) {
      ValueStable(enc, s, u, i + 1, t);
    }
  }

  lemma {:induction false} AttStable(enc: Encoding, s: seq<Byte>, u: seq<Byte>, i: nat, st: AttState)
    requires s <= u && i <= |s| && !Undecided(AttRun(enc, s, i, st))
    ensures AttRun(enc, u, i, st) == AttRun(enc, s, i, st)
    decreases |s| - i
  {
    AttStepStable(enc, s, u, i, st);
    var m := AttStep(enc, s, i, st);
    if m.Go? { AttStable(enc, s, u, m.i, m.st); }
  }

  lemma {:induction false} TagStable(enc: Encoding, s: seq<Byte>, u: seq<Byte>, i: nat, st: TagState)
    requires s <= u && i <= |s| && !Undecided(TagRun(enc, s, i, st))
    ensures TagRun(enc, u, i, st) == TagRun(enc, s, i, st)
    decreases |s| - i
  {
    if st.TagAtts? {
      AttStable(enc, s, u, i, AttName(false));
    } else {
      CharStable(enc, s, u, i);
      var m := TagStep(enc, s, i, st);
      if m.Go? { TagStable(enc, s, u, m.i, m.st); }
    }
  }

  /** A markup token that a buffer completes, or an error it finds after `<`, is the same
      however the input goes on. */
  lemma LtStable(enc: Encoding, s: seq<Byte>, u: seq<Byte>, i: nat)
    requires s <= u && i <= |s| && !Undecided(LtRun(enc, s, i))
    ensures LtRun(enc, u, i) == LtRun(enc, s, i)
  {
    CharStable(enc, s, u, i);
    var c, b := NmstrtStep(enc, s, i), enc.byteType(s[i]);
    if c.Skip? {
      TagStable(enc, s, u, i + c.width, TagName(false));
    } else if c.Own? && b.Quest? {
      PiStable(enc, s, u, i + 1, i + 1, PiFirst);
    } else if c.Own? && b.Sol? {
      EndStable(enc, s, u, i + 1, EndFirst);
    } else if c.Own? && b.Excl? && enc.byteType(s[i + 1]).Minus? {
      CommentStable(enc, s, u, i + 2, CommentFirst);
    } else if c.Own? && b.Excl? && enc.byteType(s[i + 1]).Lsqb? {
      assert s[i + 2..i + 8] == u[i + 2..i + 8];
    }
  }

  /** One byte or character of content: it goes on, or the data ends before markup, a
      line end, a broken character or a possible `]]>`, which is an error if it is one
      (expat/xmltok_impl.c:833-872). */
  function DataStep(enc: Encoding, s: seq<Byte>, i: nat): (m: Move<()>)
    requires i < |s|
    ensures m.Go? ==> i < m.i <= |s|
    ensures m.Stop? ==> m.t == Tok(DataChars, i) || (m.t.Invalid? && i < m.t.at < |s|)
  {
    var t := enc.byteType(s[i]);
    match ValidStep(enc, s, i)
    case Short | Bad => Stop(Tok(DataChars, i))
    case Skip(n) => Go(i + n, ())
    case Own =>
      if t.Rsqb? then
        if i + 1 < |s| && s[i + 1] != ASCII_RSQB then Go(i + 1, ())
        else if i + 2 < |s| then
          if s[i + 2] != ASCII_GT then Go(i + 1, ()) else Stop(Invalid(i + 2))
        else Stop(Tok(DataChars, i))
      else if t.Amp? || t.Lt? || t.Cr? || t.Lf? then Stop(Tok(DataChars, i))
      else Go(i + 1, ())
  }

  /** Character data from `i` on (expat/xmltok_impl.c:832-875). */
  function DataRun(enc: Encoding, s: seq<Byte>, i: nat): (t: Token)
    requires i <= |s|
    ensures (t.Tok? && t.kind == DataChars && i <= t.next <= |s|) || (t.Invalid? && i < t.at < |s|)
    decreases |s| - i
  {
    if i == |s| then Tok(DataChars, i)
    else
      match DataStep(enc, s, i)
      case Stop(t) => t
      case Go(j, _) => DataRun(enc, s, j)
  }

  /** The same inside a CDATA section, where only `]` and line ends are special. */
  function CdataStep(enc: Encoding, s: seq<Byte>, i: nat): (m: Move<()>)
    requires i < |s|
    ensures m.Go? ==> i < m.i <= |s|
    ensures m.Stop? ==> m.t == Tok(DataChars, i)
  {
    var t := enc.byteType(s[i]);
    match ValidStep(enc, s, i)
    case Short | Bad => Stop(Tok(DataChars, i))
    case Skip(n) => Go(i + n, ())
    case Own => if t.Rsqb? || t.Cr? || t.Lf? then Stop(Tok(DataChars, i)) else Go(i + 1, ())
  }

  /** Character data inside a CDATA section (expat/xmltok_impl.c:348-374). */
  function CdataRun(enc: Encoding, s: seq<Byte>, i: nat): (t: Token)
    requires i <= |s|
    ensures t.Tok? && t.kind == DataChars && i <= t.next <= |s|
    decreases |s| - i
  {
    if i == |s| then Tok(DataChars, i)
    else
      match CdataStep(enc, s, i)
      case Stop(t) => t
      case Go(j, _) => CdataRun(enc, s, j)
  }

  function Newline(enc: Encoding, s: seq<Byte>, i: nat): Token
    requires i < |s|
  {
    Tok(DataNewline, if enc.byteType(s[i]).Lf? then i + 1 else i)
  }

  /** `contentTok` where neither `<` nor `&` is next. */
  function PlainTok(enc: Encoding, s: seq<Byte>): (t: Token)
    requires s != []
    ensures t.Tok? ==> 0 < t.next <= |s|
    ensures t.Invalid? ==> t.at < |s|
  {
    var b := enc.byteType(s[0]);
    if b.Cr? then (if |s| == 1 then TrailingCr else Newline(enc, s, 1))
    else if b.Lf? then Tok(DataNewline, 1)
    else if b.Rsqb? then
      if |s| == 1 then TrailingRsqb
      else if s[1] != ASCII_RSQB then DataRun(enc, s, 1)
      else if |s| == 2 then TrailingRsqb
      else if s[2] != ASCII_GT then DataRun(enc, s, 1)
      else Invalid(2)
    else
      match ValidStep(enc, s, 0)
      case Short => PartialChar
      case Bad => Invalid(0)
      case Skip(n) => DataRun(enc, s, n)
      case Own => DataRun(enc, s, 1)
  }

  /** `contentTok` on the bytes from `ptr` to `end`. */
  function ContentTok(enc: Encoding, s: seq<Byte>): (t: Token)
    ensures t.Tok? ==> 0 < t.next <= |s|
    ensures t.Invalid? ==> t.at < |s|
  {
    if s == [] then NoToken
    else if enc.byteType(s[0]).Lt? then LtRun(enc, s, 1)
    else if enc.byteType(s[0]).Amp? then RefRun(enc, s, 1, RefFirst)
    else PlainTok(enc, s)
  }

  /** `cdataSectionTok` on the bytes from `ptr` to `end`. */
  function CdataTok(enc: Encoding, s: seq<Byte>): (t: Token)
    ensures t.Tok? ==> 0 < t.next <= |s|
    ensures t.Invalid? ==> t.at < |s|
  {
    if s == [] then NoToken
    else
      var b := enc.byteType(s[0]);
      if b.Rsqb? then
        if |s| == 1 then Partial
        else if s[1] != ASCII_RSQB then CdataRun(enc, s, 1)
        else if |s| == 2 then Partial
        else if s[2] != ASCII_GT then CdataRun(enc, s, 1)
        else Tok(CdataClose, 3)
      else if b.Cr? then (if |s| == 1 then Partial else Newline(enc, s, 1))
      else if b.Lf? then Tok(DataNewline, 1)
      else
        match ValidStep(enc, s, 0)
        case Short => PartialChar
        case Bad => Invalid(0)
        case Skip(n) => CdataRun(enc, s, n)
        case Own => CdataRun(enc, s, 1)
  }

  predicate IsData(t: Token) { t.Tok? && t.kind.DataChars? }

  /** `t` as seen from a buffer that starts `k` bytes earlier. */
  function Shift(t: Token, k: nat): Token {
    match t
    case Invalid(at) => Invalid(at + k)
    case Tok(kind, next) => Tok(kind, next + k)
    case _ => t
  }

  function ShiftMove(m: Move<()>, k: nat): Move<()> {
    match m
    case Stop(t) => Stop(Shift(t, k))
    case Go(i, _) => Go(i + k, ())
  }

  lemma StepShift(enc: Encoding, s: seq<Byte>, k: nat, v: seq<Byte>, i: nat)
    requires k <= |s| && v == s[k..] && i < |v|
    ensures DataStep(enc, s, k + i) == ShiftMove(DataStep(enc, v, i), k)
    ensures CdataStep(enc, s, k + i) == ShiftMove(CdataStep(enc, v, i), k)
  {
    CharShift(enc, s, k, v, i);
  }

  /** A data run reads the same when the bytes before it are dropped. */
  lemma {:induction false} DataRunShift(enc: Encoding, s: seq<Byte>, k: nat, v: seq<Byte>, i: nat)
    requires k <= |s| && v == s[k..] && i <= |v|
    ensures DataRun(enc, s, k + i) == Shift(DataRun(enc, v, i), k)
    decreases |v| - i
  {
    if i < |v| {
      StepShift(enc, s, k, v, i);
      var m := DataStep(enc, v, i);
      if m.Go? { DataRunShift(enc, s, k, v, m.i); }
    }
  }

  lemma {:induction false} CdataRunShift(enc: Encoding, s: seq<Byte>, k: nat, v: seq<Byte>, i: nat)
    requires k <= |s| && v == s[k..] && i <= |v|
    ensures CdataRun(enc, s, k + i) == Shift(CdataRun(enc, v, i), k)
    decreases |v| - i
  {
    if i < |v| {
      StepShift(enc, s, k, v, i);
      var m := CdataStep(enc, v, i);
      if m.Go? { CdataRunShift(enc, s, k, v, m.i); }
    }
  }

  /** A step that goes on in a buffer, or fails, does the same in a longer one. */
  lemma DataStepStable(enc: Encoding, s: seq<Byte>, u: seq<Byte>, i: nat)
    requires s <= u && i < |s|
    ensures var m := DataStep(enc, s, i);
            m == Stop(Tok(DataChars, i)) || DataStep(enc, u, i) == m
    ensures var m := CdataStep(enc, s, i); m.Go? ==> CdataStep(enc, u, i) == m
  {
    CharStable(enc, s, u, i);
  }

  /** In a longer buffer the run that ended at `n` goes on from `n`. */
  lemma {:induction false} DataRunExtends(enc: Encoding, s: seq<Byte>, u: seq<Byte>, i: nat)
    requires s <= u && i <= |s|
    ensures var t := DataRun(enc, s, i); DataRun(enc, u, i) == if t.Tok? then DataRun(enc, u, t.next) else t
    decreases |s| - i
  {
    if i < |s| {
      DataStepStable(enc, s, u, i);
      var m := DataStep(enc, s, i);
      if m.Go? { DataRunExtends(enc, s, u, m.i); }
    }
  }

  lemma {:induction false} CdataRunExtends(enc: Encoding, s: seq<Byte>, u: seq<Byte>, i: nat)
    requires s <= u && i <= |s|
    ensures CdataRun(enc, u, i) == CdataRun(enc, u, CdataRun(enc, s, i).next)
    decreases |s| - i
  {
    if i < |s| {
      DataStepStable(enc, s, u, i);
      var m := CdataStep(enc, s, i);
      if m.Go? { CdataRunExtends(enc, s, u, m.i); }
    }
  }

  /** A data run is over at once, or is what the scanner returns. */
  lemma DataStart(enc: Encoding, v: seq<Byte>)
    requires v != []
    ensures DataRun(enc, v, 0) == Tok(DataChars, 0) ||
            (!enc.byteType(v[0]).Lt? && !enc.byteType(v[0]).Amp? && DataRun(enc, v, 0) == PlainTok(enc, v))
  {
  }

  /** A data run entered in the middle is either over or what the scanner would return
      if it were called there. */
  lemma DataRestart(enc: Encoding, u: seq<Byte>, n: nat, v: seq<Byte>)
    requires n <= |u| && v == u[n..]
    ensures DataRun(enc, u, n) == Tok(DataChars, n) ||
            (v != [] && !enc.byteType(v[0]).Lt? && !enc.byteType(v[0]).Amp? &&
             DataRun(enc, u, n) == Shift(PlainTok(enc, v), n))
  {
    if v != [] {
      DataRunShift(enc, u, n, v, 0);
      DataStart(enc, v);
    }
  }

  lemma CdataRestart(enc: Encoding, u: seq<Byte>, n: nat, v: seq<Byte>)
    requires n <= |u| && v == u[n..]
    ensures CdataRun(enc, u, n) == Tok(DataChars, n) || CdataRun(enc, u, n) == Shift(CdataTok(enc, v), n)
  {
    if v != [] {
      StepShift(enc, u, n, v, 0);
      var m := CdataStep(enc, v, 0);
      if m.Go? { CdataRunShift(enc, u, n, v, m.i); }
    }
  }

  /** Token prefix stability in content: a decided token other than data stays as it is,
      and a data token goes on exactly as if the scanner were called at its end. */
  lemma ContentTokStable(enc: Encoding, s: seq<Byte>, u: seq<Byte>)
    requires s <= u && !Undecided(ContentTok(enc, s))
    ensures var t := ContentTok(enc, s);
            if IsData(t) then
              ContentTok(enc, u) == t || ContentTok(enc, u) == Shift(ContentTok(enc, u[t.next..]), t.next)
            else ContentTok(enc, u) == t
    ensures IsData(ContentTok(enc, s)) ==>
              (IsData(ContentTok(enc, u)) && ContentTok(enc, s).next <= ContentTok(enc, u).next) ||
              (ContentTok(enc, u).Invalid? && ContentTok(enc, s).next < ContentTok(enc, u).at)
  {
    var t := ContentTok(enc, s);
    var b := enc.byteType(s[0]);
    CharStable(enc, s, u, 0);
    if b.Lt? {
      LtStable(enc, s, u, 1);
    } else if b.Amp? {
      RefStable(enc, s, u, 1, RefFirst);
    } else if !b.Cr? && !b.Lf? {
      var c := ValidStep(enc, s, 0);
      if !c.Bad? {
        DataRunExtends(enc, s, u, if c.Skip? then c.width else 1);
      }
      if t.Tok? {
        DataRestart(enc, u, t.next, u[t.next..]);
      }
    }
  }

  /** The same in a CDATA section, where no token turns into an error. */
  lemma CdataTokStable(enc: Encoding, s: seq<Byte>, u: seq<Byte>)
    requires s <= u && !Undecided(CdataTok(enc, s))
    ensures var t := CdataTok(enc, s);
            if IsData(t) then
              CdataTok(enc, u) == t || CdataTok(enc, u) == Shift(CdataTok(enc, u[t.next..]), t.next)
            else CdataTok(enc, u) == t
    ensures IsData(CdataTok(enc, s)) ==>
              IsData(CdataTok(enc, u)) && CdataTok(enc, s).next <= CdataTok(enc, u).next
  {
    var t := CdataTok(enc, s);
    var b := enc.byteType(s[0]);
    CharStable(enc, s, u, 0);
    if !b.Cr? && !b.Lf? {
      var c := ValidStep(enc, s, 0);
      if !c.Bad? {
        CdataRunExtends(enc, s, u, if c.Skip? then c.width else 1);
      }
      if IsData(t) {
        CdataRestart(enc, u, t.next, u[t.next..]);
      }
    }
  }

  /** Character data between `i` and `n`: no character is `<` or `&`, and none starts the
      sequence that must not occur in content. */
  predicate CleanData(enc: Encoding, s: seq<Byte>, i: nat, n: nat)
    requires i <= n <= |s|
    decreases n - i
  {
    if i == n then true
    else
      var t := enc.byteType(s[i]);
      var next := i + match ValidStep(enc, s, i) case Skip(w) => w case _ => 1;
      !t.Lt? && !t.Amp? && !(t.Rsqb? && i + 2 < |s| && s[i + 1] == ASCII_RSQB && s[i + 2] == ASCII_GT) &&
      next <= n && CleanData(enc, s, next, n)
  }

  lemma {:induction false} RunClean(enc: Encoding, s: seq<Byte>, i: nat)
    requires i <= |s| && DataRun(enc, s, i).Tok?
    ensures i <= DataRun(enc, s, i).next <= |s| && CleanData(enc, s, i, DataRun(enc, s, i).next)
    decreases |s| - i
  {
    if i < |s| {
      var m := DataStep(enc, s, i);
      if m.Go? { RunClean(enc, s, m.i); }
    }
  }

  /** No data token contains a character that may not occur in character data. */
  lemma DataClean(enc: Encoding, s: seq<Byte>, n: nat)
    requires ContentTok(enc, s) == Tok(DataChars, n)
    ensures n <= |s| && CleanData(enc, s, 0, n)
  {
    DataStart(enc, s);
    if enc.byteType(s[0]).Rsqb? {
      RunClean(enc, s, 1);
    } else {
      var v := ValidStep(enc, s, 0);
      RunClean(enc, s, if v.Skip? then v.width else 1);
    }
  }
}
