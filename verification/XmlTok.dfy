/** The scanners of expat/xmltok_impl.c as they run: loops that advance `ptr` up to the
    end of the buffer. A pointer pair (ptr, end) is a sequence and an index into it. Each
    scanner returns what the reference automaton or data run returns. */
module XmlTok {
  import opened Endian
  import opened XmlBytes
  import opened XmlScan

  method ScanComment(enc: Encoding, s: seq<Byte>, start: nat) returns (t: Token)
    requires start <= |s|
    ensures t == CommentRun(enc, s, start, CommentFirst)
  {
    if start == |s| {
      return Partial;
    }
    if s[start] != ASCII_MINUS {
      return Invalid(start);
    }
    t := ScanCommentBody(enc, s, start + 1);
  }

  method ScanCommentBody(enc: Encoding, s: seq<Byte>, start: nat) returns (t: Token)
    requires start <= |s|
    ensures t == CommentRun(enc, s, start, CommentBody)
  {
    ghost var whole := CommentRun(enc, s, start, CommentBody);
    var ptr := start;
    while ptr != |s|
      invariant start <= ptr <= |s|
      invariant whole == CommentRun(enc, s, ptr, CommentBody)
      decreases |s| - ptr
    {
      match ValidStep(enc, s, ptr)
      case Short => return PartialChar;
      case Bad => return Invalid(ptr);
      case Skip(n) => ptr := ptr + n;
      case Own =>
        ptr := ptr + 1;
        if enc.byteType(s[ptr - 1]).Minus? {
          assert whole == CommentRun(enc, s, ptr, CommentDash);
          if ptr == |s| {
            return Partial;
          }
          if s[ptr] == ASCII_MINUS {
            ptr := ptr + 1;
            assert CommentRun(enc, s, ptr - 1, CommentDash) == CommentRun(enc, s, ptr, CommentEnd);
            if ptr == |s| {
              return Partial;
            }
            if s[ptr] != ASCII_GT {
              return Invalid(ptr);
            }
            return Tok(Comment, ptr + 1);
          }
        }
    }
    return Partial;
  }

  method ScanPiBody(enc: Encoding, s: seq<Byte>, ghost target: nat, start: nat, decl: bool) returns (t: Token)
    requires target <= start <= |s|
    ensures t == PiRun(enc, s, target, start, PiBody(decl))
  {
    ghost var whole := PiRun(enc, s, target, start, PiBody(decl));
    var ptr := start;
    while ptr != |s|
      invariant start <= ptr <= |s|
      invariant whole == PiRun(enc, s, target, ptr, PiBody(decl))
      decreases |s| - ptr
    {
      match ValidStep(enc, s, ptr)
      case Short => return PartialChar;
      case Bad => return Invalid(ptr);
      case Skip(n) => ptr := ptr + n;
      case Own =>
        if enc.byteType(s[ptr]).Quest? {
          ptr := ptr + 1;
          assert whole == PiRun(enc, s, target, ptr, PiQuest(decl));
          if ptr == |s| {
            return Partial;
          }
          if s[ptr] == ASCII_GT {
            return Tok(PiKind(decl), ptr + 1);
          }
          assert PiRun(enc, s, target, ptr, PiQuest(decl)) == PiRun(enc, s, target, ptr, PiBody(decl));
        } else {
          ptr := ptr + 1;
        }
    }
    return Partial;
  }

  method ScanPi(enc: Encoding, s: seq<Byte>, start: nat) returns (t: Token)
    requires start <= |s|
    ensures t == PiRun(enc, s, start, start, PiFirst)
  {
    if start == |s| {
      return Partial;
    }
    match NmstrtStep(enc, s, start)
    case Short => return PartialChar;
    case Bad | Own => return Invalid(start);
    case Skip(n) => t := ScanPiName(enc, s, start, start + n);
  }

  /** The runs from `i` and from `j` in the target of a processing instruction are the same;
      behind a quantifier, so that the loop only passes it on. */
  ghost predicate SamePi(enc: Encoding, s: seq<Byte>, target: nat, i: nat, j: nat)
    requires target <= i <= |s| && target <= j <= |s|
  {
    forall p {:trigger PiAsked(p, j)} :: PiAsked(p, j) ==> PiRun(enc, s, target, i, PiName) == PiRun(enc, s, target, j, PiName)
  }

  predicate PiAsked(p: int, j: nat) { true }

  lemma PiNameOn(enc: Encoding, s: seq<Byte>, target: nat, i: nat, j: nat, n: nat)
    requires target <= i <= |s| && target <= j < |s| && SamePi(enc, s, target, i, j) == true && NameStep(enc, s, j) == Skip(n)
    ensures j + n <= |s| && SamePi(enc, s, target, i, j + n) == true
  {
    assert PiAsked(0, j);
  }

  method ScanPiName(enc: Encoding, s: seq<Byte>, target: nat, start: nat) returns (t: Token)
    requires target <= start <= |s|
    ensures t == PiRun(enc, s, target, start, PiName)
  {
    var ptr := start;
    while ptr != |s|
      invariant start <= ptr <= |s|
      invariant SamePi(enc, s, target, start, ptr) == true
      decreases |s| - ptr
    {
      match NameStep(enc, s, ptr)
      case Short =>
        assert PiAsked(0, ptr);
        return PartialChar;
      case Bad =>
        assert PiAsked(0, ptr);
        return Invalid(ptr);
      case Skip(n) =>
        PiNameOn(enc, s, target, start, ptr, n);
        ptr := ptr + n;
      case Own =>
        assert PiAsked(0, ptr);
        t := ScanPiAfterName(enc, s, target, ptr);
        return;
    }
    assert PiAsked(0, ptr);
    return Partial;
  }

  /** The byte that ends the target of a processing instruction. */
  method ScanPiAfterName(enc: Encoding, s: seq<Byte>, target: nat, start: nat) returns (t: Token)
    requires target <= start < |s| && NameStep(enc, s, start).Own?
    ensures t == PiRun(enc, s, target, start, PiName)
  {
    var ptr, b := start, enc.byteType(s[start]);
    if !IsSpace(b) && !b.Quest? {
      return Invalid(ptr);
    }
    var kind := PiTarget(s, target, ptr);
    if kind.Miscased? {
      return Invalid(ptr);
    }
    ptr := ptr + 1;
    if IsSpace(b) {
      t := ScanPiBody(enc, s, target, ptr, kind.Declaration?);
      return;
    }
    if ptr == |s| {
      return Partial;
    }
    if s[ptr] == ASCII_GT {
      return Tok(PiKind(kind.Declaration?), ptr + 1);
    }
    return Invalid(ptr);
  }

  method ScanCdataSection(enc: Encoding, s: seq<Byte>, start: nat) returns (t: Token)
    requires start <= |s|
    ensures t == CdataWord(s, start)
  {
    var ptr := start;
    if |s| - ptr < 6 {
      return Partial;
    }
    ghost var w := s[start..start + 6];
    var i := 0;
    while i < 6
      invariant 0 <= i <= 6 && ptr == start + i
      invariant w[..i] == CDATA_LSQB[..i]
    {
      if s[ptr] != CDATA_LSQB[i] {
        MismatchAt(w, i);
        return Invalid(ptr);
      }
      assert w[..i + 1] == w[..i] + [w[i]];
      assert CDATA_LSQB[..i + 1] == CDATA_LSQB[..i] + [CDATA_LSQB[i]];
      i, ptr := i + 1, ptr + 1;
    }
    assert w == w[..6] && CDATA_LSQB == CDATA_LSQB[..6];
    return Tok(CdataOpen, ptr);
  }

  method ScanEndTag(enc: Encoding, s: seq<Byte>, start: nat) returns (t: Token)
    requires start <= |s|
    ensures t == EndRun(enc, s, start, EndFirst)
  {
    ghost var whole := EndRun(enc, s, start, EndFirst);
    var ptr := start;
    if ptr == |s| {
      return Partial;
    }
    match NmstrtStep(enc, s, ptr) {
      case Short => return PartialChar;
      case Bad | Own => return Invalid(ptr);
      case Skip(n) => ptr := ptr + n;
    }
    while ptr != |s|
      invariant start <= ptr <= |s|
      invariant whole == EndRun(enc, s, ptr, EndName)
      decreases |s| - ptr
    {
      match NameStep(enc, s, ptr)
      case Short => return PartialChar;
      case Bad => return Invalid(ptr);
      case Skip(n) => ptr := ptr + n;
      case Own =>
        var b := enc.byteType(s[ptr]);
        if IsSpace(b) {
          ptr := ptr + 1;
          while ptr != |s|
            invariant start <= ptr <= |s|
            invariant whole == EndRun(enc, s, ptr, EndGap)
            decreases |s| - ptr
          {
            var g := enc.byteType(s[ptr]);
            if g.Gt? {
              return Tok(EndTag, ptr + 1);
            } else if !IsSpace(g) {
              return Invalid(ptr);
            }
            ptr := ptr + 1;
          }
          return Partial;
        } else if b.Colon? {
          ptr := ptr + 1;
        } else if b.Gt? {
          return Tok(EndTag, ptr + 1);
        } else {
          return Invalid(ptr);
        }
    }
    return Partial;
  }

  method ScanHexCharRef(enc: Encoding, s: seq<Byte>, start: nat) returns (t: Token)
    requires start <= |s|
    ensures t == RefRun(enc, s, start, NumHexFirst)
  {
    ghost var whole := RefRun(enc, s, start, NumHexFirst);
    var ptr := start;
    if ptr != |s| {
      if !enc.byteType(s[ptr]).Digit? && !enc.byteType(s[ptr]).Hex? {
        return Invalid(ptr);
      }
      ptr := ptr + 1;
      while ptr != |s|
        invariant start < ptr <= |s|
        invariant whole == RefRun(enc, s, ptr, NumHex)
        decreases |s| - ptr
      {
        var b := enc.byteType(s[ptr]);
        if b.Semi? {
          return Tok(CharRef, ptr + 1);
        } else if !b.Digit? && !b.Hex? {
          return Invalid(ptr);
        }
        ptr := ptr + 1;
      }
    }
    return Partial;
  }

  method ScanCharRef(enc: Encoding, s: seq<Byte>, start: nat) returns (t: Token)
    requires start <= |s|
    ensures t == RefRun(enc, s, start, NumFirst)
  {
    ghost var whole := RefRun(enc, s, start, NumFirst);
    var ptr := start;
    if ptr != |s| {
      if s[ptr] == 0x78 {
        t := ScanHexCharRef(enc, s, ptr + 1);
        return;
      }
      if !enc.byteType(s[ptr]).Digit? {
        return Invalid(ptr);
      }
      ptr := ptr + 1;
      while ptr != |s|
        invariant start < ptr <= |s|
        invariant whole == RefRun(enc, s, ptr, NumDec)
        decreases |s| - ptr
      {
        var b := enc.byteType(s[ptr]);
        if b.Semi? {
          return Tok(CharRef, ptr + 1);
        } else if !b.Digit? {
          return Invalid(ptr);
        }
        ptr := ptr + 1;
      }
    }
    return Partial;
  }

  method ScanRef(enc: Encoding, s: seq<Byte>, start: nat) returns (t: Token)
    requires start <= |s|
    ensures t == RefRun(enc, s, start, RefFirst)
  {
    ghost var whole := RefRun(enc, s, start, RefFirst);
    var ptr := start;
    if ptr == |s| {
      return Partial;
    }
    match NmstrtStep(enc, s, ptr) {
      case Short => return PartialChar;
      case Bad => return Invalid(ptr);
      case Skip(n) => ptr := ptr + n;
      case Own =>
        if enc.byteType(s[ptr]).Num? {
          t := ScanCharRef(enc, s, ptr + 1);
          return;
        }
        return Invalid(ptr);
    }
    while ptr != |s|
      invariant start <= ptr <= |s|
      invariant whole == RefRun(enc, s, ptr, RefName)
      decreases |s| - ptr
    {
      match NameStep(enc, s, ptr)
      case Short => return PartialChar;
      case Bad => return Invalid(ptr);
      case Skip(n) => ptr := ptr + n;
      case Own =>
        if enc.byteType(s[ptr]).Semi? {
          return Tok(EntityRef, ptr + 1);
        }
        return Invalid(ptr);
    }
    return Partial;
  }

  /** One move inside an attribute value; behind a quantifier, so that the loop does not look
      into it. */
  ghost predicate ValueMoves(enc: Encoding, s: seq<Byte>, i: nat, quote: ByteType, m: Move<AttState>) {
    i < |s| && forall p {:trigger ValueAsked(p, i)} :: ValueAsked(p, i) ==> ValueStep(enc, s, i, quote) == m
  }

  /** The rest of an attribute value. */
  ghost predicate ValueEnds(enc: Encoding, s: seq<Byte>, i: nat, quote: ByteType, m: Move<AttState>) {
    i <= |s| && forall p {:trigger ValueAsked(p, i)} :: ValueAsked(p, i) ==> ValueRun(enc, s, i, quote) == m
  }

  /** The same for two places inside an attribute value. */
  ghost predicate SameValue(enc: Encoding, s: seq<Byte>, quote: ByteType, i: nat, j: nat)
    requires i <= |s| && j <= |s|
  {
    forall p {:trigger ValueAsked(p, j)} :: ValueAsked(p, j) ==> ValueRun(enc, s, i, quote) == ValueRun(enc, s, j, quote)
  }

  predicate ValueAsked(p: int, i: nat) { true }

  lemma ValueOn(enc: Encoding, s: seq<Byte>, quote: ByteType, i: nat, j: nat, n: nat)
    requires i <= |s| && j < |s| && SameValue(enc, s, quote, i, j) == true && ValueMoves(enc, s, j, quote, Go(n, AttOpen)) == true
    ensures j < n <= |s| && SameValue(enc, s, quote, i, n) == true
  {
    assert ValueAsked(0, j);
  }

  lemma ValueOff(enc: Encoding, s: seq<Byte>, quote: ByteType, i: nat, j: nat, m: Move<AttState>)
    requires i <= |s| && j <= |s| && SameValue(enc, s, quote, i, j) == true
    requires if j == |s| then m == Stop(Partial) else ValueMoves(enc, s, j, quote, m) == true && (m.Stop? || m.st.AttClosed?)
    ensures ValueEnds(enc, s, i, quote, m) == true
  {
    assert ValueAsked(0, j);
  }

  /** One character of an attribute value. */
  method ScanValueChar(enc: Encoding, s: seq<Byte>, ptr: nat, ghost quote: ByteType) returns (t: Token, next: nat)
    requires ptr < |s| && enc.byteType(s[ptr]) != quote
    ensures ValueMoves(enc, s, ptr, quote, if t.NoToken? then Go(next, AttOpen) else Stop(t)) == true
  {
    t, next := NoToken, ptr;
    match ValidStep(enc, s, ptr)
    case Short => t := PartialChar;
    case Bad => t := Invalid(ptr);
    case Skip(n) => next := ptr + n;
    case Own => t, next := ScanValueByte(enc, s, ptr, quote);
  }

  /** A byte of an attribute value that is neither its quote nor a checked character. */
  method ScanValueByte(enc: Encoding, s: seq<Byte>, ptr: nat, ghost quote: ByteType) returns (t: Token, next: nat)
    requires ptr < |s| && enc.byteType(s[ptr]) != quote && ValidStep(enc, s, ptr).Own?
    ensures ValueStep(enc, s, ptr, quote) == if t.NoToken? then Go(next, AttOpen) else Stop(t)
  {
    var b := enc.byteType(s[ptr]);
    t, next := NoToken, ptr + 1;
    if b.Amp? {
      t := ScanRef(enc, s, ptr + 1);
      if t.Tok? {
        t, next := NoToken, t.next;
      }
    } else if b.Lt? {
      t := Invalid(ptr);
    }
  }

  lemma QuoteMoves(enc: Encoding, s: seq<Byte>, i: nat)
    requires i < |s|
    ensures ValueMoves(enc, s, i, enc.byteType(s[i]), Go(i + 1, AttClosed)) == true
  {
  }

  /** Inside an attribute value, up to the closing quote. */
  method ScanValue(enc: Encoding, s: seq<Byte>, start: nat, quote: ByteType) returns (t: Token, at: nat)
    requires start <= |s|
    ensures t.NoToken? ==> start <= at < |s|
    ensures ValueEnds(enc, s, start, quote, if t.NoToken? then Go(at + 1, AttClosed) else Stop(t)) == true
  {
    var ptr := start;
    while true
      invariant start <= ptr <= |s|
      invariant SameValue(enc, s, quote, start, ptr) == true
      decreases |s| - ptr
    {
      if ptr == |s| {
        ValueOff(enc, s, quote, start, ptr, Stop(Partial));
        return Partial, ptr;
      }
      if enc.byteType(s[ptr]) == quote {
        QuoteMoves(enc, s, ptr);
        ValueOff(enc, s, quote, start, ptr, Go(ptr + 1, AttClosed));
        return NoToken, ptr;
      }
      t, at := ScanValueChar(enc, s, ptr, quote);
      if !t.NoToken? {
        ValueOff(enc, s, quote, start, ptr, Stop(t));
        return;
      }
      ValueOn(enc, s, quote, start, ptr, at);
      ptr := at;
    }
  }

  method ScanSlash(s: seq<Byte>, start: nat, atts: bool) returns (t: Token)
    requires start <= |s|
    ensures t == SlashEnd(s, start, atts)
  {
    if start == |s| {
      return Partial;
    }
    if s[start] != ASCII_GT {
      return Invalid(start);
    }
    return Tok(if atts then EmptyWithAtts else EmptyNoAtts, start + 1);
  }

  /** The attributes from `i` on in the state `st` come to the token `t`, or if that is
      `NoToken` they come to `j` in the state `nt`. */
  ghost predicate Leads(enc: Encoding, s: seq<Byte>, i: nat, st: AttState, t: Token, j: nat, nt: AttState) {
    && i <= |s| && (t.NoToken? ==> j <= |s|)
    && forall p {:trigger AttAsked(p, j, nt)} :: AttAsked(p, j, nt) ==>
         AttRun(enc, s, i, st) == if t.NoToken? then AttRun(enc, s, j, nt) else t
  }

  predicate AttAsked(p: int, j: nat, nt: AttState) { true }

  /** One move over the attributes. */
  ghost predicate Steps(enc: Encoding, s: seq<Byte>, i: nat, st: AttState, m: Move<AttState>) {
    i < |s| && forall p {:trigger StepAsked(p, i, st)} :: StepAsked(p, i, st) ==> AttStep(enc, s, i, st) == m
  }

  predicate StepAsked(p: int, i: nat, st: AttState) { true }

  lemma LeadsHere(enc: Encoding, s: seq<Byte>, i: nat, st: AttState)
    requires i <= |s|
    ensures Leads(enc, s, i, st, NoToken, i, st) == true
  {
  }

  lemma LeadsOn(enc: Encoding, s: seq<Byte>, i: nat, st: AttState, j: nat, nt: AttState, k: nat, mt: AttState)
    requires Leads(enc, s, i, st, NoToken, j, nt) == true && Steps(enc, s, j, nt, Go(k, mt)) == true
    ensures Leads(enc, s, i, st, NoToken, k, mt) == true
  {
    assert AttAsked(0, j, nt) && StepAsked(0, j, nt);
  }

  lemma LeadsOff(enc: Encoding, s: seq<Byte>, i: nat, st: AttState, j: nat, nt: AttState, t: Token, k: nat, mt: AttState)
    requires Leads(enc, s, i, st, NoToken, j, nt) == true
    requires if j == |s| then t == Partial else Steps(enc, s, j, nt, Stop(t)) == true
    ensures !t.NoToken? && Leads(enc, s, i, st, t, k, mt) == true
  {
    assert AttAsked(0, j, nt) && (j < |s| ==> StepAsked(0, j, nt));
  }

  /** In an attribute name. */
  function NameMove(enc: Encoding, s: seq<Byte>, i: nat, hadColon: bool): Move<AttState>
    requires i < |s|
  {
    var b := enc.byteType(s[i]);
    OnChar(NameStep(enc, s, i), i, AttName(hadColon),
      if b.Colon? && !hadColon then Go(i + 1, AttColon)
      else if IsSpace(b) then Go(i + 1, AttEquals)
      else if b.Equals? then Go(i + 1, AttOpen)
      else Stop(Invalid(i)))
  }

  lemma NameSteps(enc: Encoding, s: seq<Byte>, i: nat, hadColon: bool)
    requires i < |s|
    ensures Steps(enc, s, i, AttName(hadColon), NameMove(enc, s, i, hadColon)) == true
  {
  }

  lemma EqualsSteps(enc: Encoding, s: seq<Byte>, i: nat)
    requires i < |s|
    ensures var b := enc.byteType(s[i]);
            Steps(enc, s, i, AttEquals, if b.Equals? then Go(i + 1, AttOpen) else if IsSpace(b) then Go(i + 1, AttEquals) else Stop(Invalid(i))) == true
  {
  }

  lemma OpenSteps(enc: Encoding, s: seq<Byte>, i: nat)
    requires i < |s| && !enc.byteType(s[i]).Quot? && !enc.byteType(s[i]).Apos?
    ensures Steps(enc, s, i, AttOpen, if IsSpace(enc.byteType(s[i])) then Go(i + 1, AttOpen) else Stop(Invalid(i))) == true
  {
  }

  lemma QuotedSteps(enc: Encoding, s: seq<Byte>, i: nat, m: Move<AttState>)
    requires i < |s| && (enc.byteType(s[i]).Quot? || enc.byteType(s[i]).Apos?)
    requires ValueEnds(enc, s, i + 1, enc.byteType(s[i]), m) == true
    ensures Steps(enc, s, i, AttOpen, m) == true
  {
    assert ValueAsked(0, i + 1);
  }

  lemma CloseSteps(enc: Encoding, s: seq<Byte>, i: nat)
    requires i < |s|
    ensures Steps(enc, s, i, AttClosed, AttClose(enc, s, i)) == true
  {
  }

  lemma LeadsThen(enc: Encoding, s: seq<Byte>, i: nat, st: AttState, j: nat, nt: AttState, t: Token, k: nat, mt: AttState)
    requires Leads(enc, s, i, st, NoToken, j, nt) == true && Leads(enc, s, j, nt, t, k, mt) == true
    ensures Leads(enc, s, i, st, t, k, mt) == true
  {
    assert AttAsked(0, j, nt) && AttAsked(0, k, mt);
  }

  method ScanAtts(enc: Encoding, s: seq<Byte>, start: nat) returns (t: Token)
    requires start <= |s|
    ensures t == AttRun(enc, s, start, AttName(false))
  {
    ghost var i;
    t, i := ScanAttList(enc, s, start);
    assert AttAsked(0, i, AttName(false));
  }

  /** The character behind a colon. */
  method ScanAfterColon(enc: Encoding, s: seq<Byte>, ptr: nat) returns (t: Token, next: nat)
    requires ptr <= |s|
    ensures ptr == |s| ==> t == Partial
    ensures ptr < |s| ==> Steps(enc, s, ptr, AttColon, if t.NoToken? then Go(next, AttName(true)) else Stop(t)) == true
    ensures ptr < |s| ==> TagStep(enc, s, ptr, TagColon) == if t.NoToken? then Go(next, TagName(true)) else Stop(t)
  {
    if ptr == |s| {
      return Partial, ptr;
    }
    match NmstrtStep(enc, s, ptr)
    case Short => return PartialChar, ptr;
    case Bad | Own => return Invalid(ptr), ptr;
    case Skip(n) => return NoToken, ptr + n;
  }

  /** The loop over the attributes. */
  method ScanAttList(enc: Encoding, s: seq<Byte>, start: nat) returns (t: Token, ghost at: nat)
    requires start <= |s|
    ensures !t.NoToken? && Leads(enc, s, start, AttName(false), t, at, AttName(false)) == true
  {
    var ptr, hadColon := start, false;
    ghost var first := AttName(false);
    at := start;
    LeadsHere(enc, s, start, first);
    while ptr != |s|
      invariant start <= ptr <= |s| && at == start
      invariant Leads(enc, s, start, first, NoToken, ptr, AttName(hadColon)) == true
      decreases |s| - ptr
    {
      NameSteps(enc, s, ptr, hadColon);
      match NameStep(enc, s, ptr)
      case Short =>
        LeadsOff(enc, s, start, first, ptr, AttName(hadColon), PartialChar, at, first);
        return PartialChar, at;
      case Bad =>
        LeadsOff(enc, s, start, first, ptr, AttName(hadColon), Invalid(ptr), at, first);
        return Invalid(ptr), at;
      case Skip(n) =>
        LeadsOn(enc, s, start, first, ptr, AttName(hadColon), ptr + n, AttName(hadColon));
        ptr := ptr + n;
      case Own =>
        var b := enc.byteType(s[ptr]);
        if b.Colon? {
          if hadColon {
            LeadsOff(enc, s, start, first, ptr, AttName(hadColon), Invalid(ptr), at, first);
            return Invalid(ptr), at;
          }
          LeadsOn(enc, s, start, first, ptr, AttName(hadColon), ptr + 1, AttColon);
          hadColon := true;
          var next;
          t, next := ScanAfterColon(enc, s, ptr + 1);
          if !t.NoToken? {
            LeadsOff(enc, s, start, first, ptr + 1, AttColon, t, at, first);
            return;
          }
          LeadsOn(enc, s, start, first, ptr + 1, AttColon, next, AttName(true));
          ptr := next;
        } else if IsSpace(b) || b.Equals? {
          ghost var here := ptr;
          t, ptr := ScanAttValue(enc, s, ptr, hadColon);
          LeadsThen(enc, s, start, first, here, AttName(hadColon), t, ptr, first);
          if !t.NoToken? {
            LeadsStop(enc, s, start, first, t, ptr, first, at, first);
            return;
          }
          hadColon := false;
        } else {
          LeadsOff(enc, s, start, first, ptr, AttName(hadColon), Invalid(ptr), at, first);
          return Invalid(ptr), at;
        }
    }
    LeadsOff(enc, s, start, first, ptr, AttName(hadColon), Partial, at, first);
    return Partial, at;
  }

  /** The `=` after white space that follows an attribute name. */
  method ScanEquals(enc: Encoding, s: seq<Byte>, start: nat) returns (t: Token, at: nat)
    requires start < |s|
    ensures t.NoToken? ==> start < at < |s|
    ensures Leads(enc, s, start + 1, AttEquals, t, at + 1, AttOpen) == true
  {
    var ptr := start;
    LeadsHere(enc, s, start + 1, AttEquals);
    while true
      invariant start <= ptr < |s|
      invariant Leads(enc, s, start + 1, AttEquals, NoToken, ptr + 1, AttEquals) == true
      decreases |s| - ptr
    {
      ptr := ptr + 1;
      if ptr == |s| {
        LeadsOff(enc, s, start + 1, AttEquals, ptr, AttEquals, Partial, ptr + 1, AttOpen);
        return Partial, ptr;
      }
      EqualsSteps(enc, s, ptr);
      var b := enc.byteType(s[ptr]);
      if b.Equals? {
        LeadsOn(enc, s, start + 1, AttEquals, ptr, AttEquals, ptr + 1, AttOpen);
        return NoToken, ptr;
      }
      if !IsSpace(b) {
        LeadsOff(enc, s, start + 1, AttEquals, ptr, AttEquals, Invalid(ptr), ptr + 1, AttOpen);
        return Invalid(ptr), ptr;
      }
      LeadsOn(enc, s, start + 1, AttEquals, ptr, AttEquals, ptr + 1, AttEquals);
    }
  }

  /** The attribute value after the `=` at `start`, up to its closing quote. */
  method ScanOpen(enc: Encoding, s: seq<Byte>, start: nat) returns (t: Token, at: nat)
    requires start < |s|
    ensures t.NoToken? ==> start < at < |s|
    ensures Leads(enc, s, start + 1, AttOpen, t, at + 1, AttClosed) == true
  {
    var ptr := start;
    LeadsHere(enc, s, start + 1, AttOpen);
    while true
      invariant start <= ptr < |s|
      invariant Leads(enc, s, start + 1, AttOpen, NoToken, ptr + 1, AttOpen) == true
      decreases |s| - ptr
    {
      ptr := ptr + 1;
      if ptr == |s| {
        LeadsOff(enc, s, start + 1, AttOpen, ptr, AttOpen, Partial, ptr + 1, AttClosed);
        return Partial, ptr;
      }
      var open := enc.byteType(s[ptr]);
      if open.Quot? || open.Apos? {
        t, at := ScanValue(enc, s, ptr + 1, open);
        QuotedSteps(enc, s, ptr, if t.NoToken? then Go(at + 1, AttClosed) else Stop(t));
        if t.NoToken? {
          LeadsOn(enc, s, start + 1, AttOpen, ptr, AttOpen, at + 1, AttClosed);
        } else {
          LeadsOff(enc, s, start + 1, AttOpen, ptr, AttOpen, t, at + 1, AttClosed);
        }
        return;
      }
      OpenSteps(enc, s, ptr);
      if !IsSpace(open) {
        LeadsOff(enc, s, start + 1, AttOpen, ptr, AttOpen, Invalid(ptr), ptr + 1, AttClosed);
        return Invalid(ptr), ptr;
      }
      LeadsOn(enc, s, start + 1, AttOpen, ptr, AttOpen, ptr + 1, AttOpen);
    }
  }

  /** A byte after an attribute value: white space, or the end of the tag. */
  method ScanAfterValue(enc: Encoding, s: seq<Byte>, ptr: nat) returns (t: Token)
    requires ptr < |s|
    ensures AttClose(enc, s, ptr) == if t.NoToken? then Go(ptr + 1, AttGap) else Stop(t)
  {
    var b := enc.byteType(s[ptr]);
    if IsSpace(b) {
      return NoToken;
    } else if b.Sol? {
      t := ScanSlash(s, ptr + 1, true);
    } else if b.Gt? {
      return Tok(StartWithAtts, ptr + 1);
    } else {
      return Invalid(ptr);
    }
  }

  /** From the closing quote at `start` past the first character of the next name. */
  method ScanClosed(enc: Encoding, s: seq<Byte>, start: nat) returns (t: Token, ptr: nat)
    requires start < |s|
    ensures t.NoToken? ==> start < ptr <= |s|
    ensures Leads(enc, s, start + 1, AttClosed, t, ptr, AttName(false)) == true
  {
    ptr := start + 1;
    LeadsHere(enc, s, start + 1, AttClosed);
    if ptr == |s| {
      LeadsOff(enc, s, start + 1, AttClosed, ptr, AttClosed, Partial, ptr, AttName(false));
      return Partial, ptr;
    }
    t := ScanAfterValue(enc, s, ptr);
    CloseSteps(enc, s, ptr);
    if t.NoToken? {
      LeadsOn(enc, s, start + 1, AttClosed, ptr, AttClosed, ptr + 1, AttGap);
      ghost var gap := ptr + 1;
      t, ptr := ScanGap(enc, s, ptr);
      LeadsThen(enc, s, start + 1, AttClosed, gap, AttGap, t, ptr, AttName(false));
    } else {
      LeadsOff(enc, s, start + 1, AttClosed, ptr, AttClosed, t, ptr, AttName(false));
    }
  }

  /** One character behind an attribute value and white space: more white space, or the first
      character of a name, or the end of the tag. */
  method ScanGapChar(enc: Encoding, s: seq<Byte>, ptr: nat) returns (t: Token, next: nat, more: bool)
    requires ptr < |s|
    ensures Steps(enc, s, ptr, AttGap, if !t.NoToken? then Stop(t) else if more then Go(ptr + 1, AttGap) else Go(next, AttName(false))) == true
    ensures t.NoToken? ==> ptr < next <= |s|
  {
    t, next, more := NoToken, ptr + 1, true;
    match NmstrtStep(enc, s, ptr)
    case Short => t := PartialChar;
    case Bad => t := Invalid(ptr);
    case Skip(n) => next, more := ptr + n, false;
    case Own => t := ScanAfterValue(enc, s, ptr);
  }

  /** White space after an attribute value. */
  method ScanGap(enc: Encoding, s: seq<Byte>, start: nat) returns (t: Token, at: nat)
    requires start < |s|
    ensures t.NoToken? ==> start < at <= |s|
    ensures Leads(enc, s, start + 1, AttGap, t, at, AttName(false)) == true
  {
    var ptr := start;
    LeadsHere(enc, s, start + 1, AttGap);
    while true
      invariant start <= ptr < |s|
      invariant Leads(enc, s, start + 1, AttGap, NoToken, ptr + 1, AttGap) == true
      decreases |s| - ptr
    {
      ptr := ptr + 1;
      if ptr == |s| {
        LeadsOff(enc, s, start + 1, AttGap, ptr, AttGap, Partial, ptr, AttName(false));
        return Partial, ptr;
      }
      var more;
      t, at, more := ScanGapChar(enc, s, ptr);
      if !t.NoToken? {
        LeadsOff(enc, s, start + 1, AttGap, ptr, AttGap, t, at, AttName(false));
        return;
      }
      if !more {
        LeadsOn(enc, s, start + 1, AttGap, ptr, AttGap, at, AttName(false));
        return;
      }
      LeadsOn(enc, s, start + 1, AttGap, ptr, AttGap, ptr + 1, AttGap);
    }
  }

  /** From the `=` at `start` past the first character of the next attribute name. */
  method ScanQuoted(enc: Encoding, s: seq<Byte>, start: nat) returns (t: Token, ptr: nat)
    requires start < |s|
    ensures t.NoToken? ==> start < ptr <= |s|
    ensures Leads(enc, s, start + 1, AttOpen, t, ptr, AttName(false)) == true
  {
    t, ptr := ScanOpen(enc, s, start);
    if t.NoToken? {
      ghost var close := ptr + 1;
      t, ptr := ScanClosed(enc, s, ptr);
      LeadsThen(enc, s, start + 1, AttOpen, close, AttClosed, t, ptr, AttName(false));
    } else {
      LeadsStop(enc, s, start + 1, AttOpen, t, ptr + 1, AttClosed, ptr, AttName(false));
    }
  }

  /** Where a token ends the run it does not matter what would follow. */
  lemma LeadsStop(enc: Encoding, s: seq<Byte>, i: nat, st: AttState, t: Token, j: nat, nt: AttState, k: nat, mt: AttState)
    requires Leads(enc, s, i, st, t, j, nt) == true && !t.NoToken?
    ensures Leads(enc, s, i, st, t, k, mt) == true
  {
    assert AttAsked(0, j, nt);
  }

  /** From the end of an attribute name past the first character of the next one. */
  method ScanAttValue(enc: Encoding, s: seq<Byte>, start: nat, ghost hadColon: bool) returns (t: Token, ptr: nat)
    requires start < |s| && (IsSpace(enc.byteType(s[start])) || enc.byteType(s[start]).Equals?) && NameStep(enc, s, start).Own?
    ensures t.NoToken? ==> start < ptr <= |s|
    ensures Leads(enc, s, start, AttName(hadColon), t, ptr, AttName(false)) == true
  {
    ptr := start;
    ghost var name := AttName(hadColon);
    LeadsHere(enc, s, start, name);
    NameSteps(enc, s, start, hadColon);
    if IsSpace(enc.byteType(s[ptr])) {
      LeadsOn(enc, s, start, name, start, name, start + 1, AttEquals);
      t, ptr := ScanEquals(enc, s, ptr);
      LeadsThen(enc, s, start, name, start + 1, AttEquals, t, ptr + 1, AttOpen);
      if !t.NoToken? {
        LeadsStop(enc, s, start, name, t, ptr + 1, AttOpen, ptr, AttName(false));
        return;
      }
    } else {
      LeadsOn(enc, s, start, name, start, name, start + 1, AttOpen);
    }
    ghost var open := ptr + 1;
    t, ptr := ScanQuoted(enc, s, ptr);
    LeadsThen(enc, s, start, name, open, AttOpen, t, ptr, AttName(false));
  }

  method ScanLt(enc: Encoding, s: seq<Byte>, start: nat) returns (t: Token)
    requires start <= |s|
    ensures t == LtRun(enc, s, start)
  {
    if start == |s| {
      return Partial;
    }
    match NmstrtStep(enc, s, start)
    case Short => return PartialChar;
    case Bad => return Invalid(start);
    case Skip(n) => t := ScanTagName(enc, s, start + n);
    case Own => t := ScanMarkup(enc, s, start);
  }

  /** The same for the name of a start tag and the white space behind it. */
  ghost predicate SameTag(enc: Encoding, s: seq<Byte>, i: nat, st: TagState, j: nat, nt: TagState)
    requires i <= |s| && j <= |s|
  {
    forall p {:trigger TagAsked(p, j, nt)} :: TagAsked(p, j, nt) ==> TagRun(enc, s, i, st) == TagRun(enc, s, j, nt)
  }

  predicate TagAsked(p: int, i: nat, st: TagState) { true }

  lemma TagOn(enc: Encoding, s: seq<Byte>, i: nat, st: TagState, j: nat, nt: TagState, k: nat, mt: TagState)
    requires i <= |s| && j < |s| && SameTag(enc, s, i, st, j, nt) == true && !nt.TagAtts? && TagStep(enc, s, j, nt) == Go(k, mt)
    ensures k <= |s| && SameTag(enc, s, i, st, k, mt) == true
  {
    assert TagAsked(0, j, nt);
  }

  lemma TagOff(enc: Encoding, s: seq<Byte>, i: nat, st: TagState, j: nat, nt: TagState, t: Token)
    requires i <= |s| && j <= |s| && SameTag(enc, s, i, st, j, nt) == true && !nt.TagAtts?
    requires if j == |s| then t == Partial else TagStep(enc, s, j, nt) == Stop(t)
    ensures TagEnds(enc, s, i, st, t) == true
  {
    assert TagAsked(0, j, nt);
  }

  lemma TagThen(enc: Encoding, s: seq<Byte>, i: nat, st: TagState, j: nat, nt: TagState, t: Token)
    requires i <= |s| && j <= |s| && SameTag(enc, s, i, st, j, nt) == true && TagEnds(enc, s, j, nt, t) == true
    ensures TagEnds(enc, s, i, st, t) == true
  {
    assert TagAsked(0, j, nt);
  }

  lemma AttsEnd(enc: Encoding, s: seq<Byte>, i: nat, t: Token)
    requires i <= |s| && AttRun(enc, s, i, AttName(false)) == t
    ensures TagEnds(enc, s, i, TagAtts, t) == true
  {
  }

  /** The byte that ends the element name, and what follows. */
  method ScanTagByte(enc: Encoding, s: seq<Byte>, ptr: nat, ghost hadColon: bool) returns (t: Token)
    requires ptr < |s| && NameStep(enc, s, ptr).Own? && (enc.byteType(s[ptr]).Colon? ==> hadColon)
    ensures TagEnds(enc, s, ptr, TagName(hadColon), t) == true
  {
    var b := enc.byteType(s[ptr]);
    if IsSpace(b) {
      t := ScanTagGap(enc, s, ptr + 1);
      assert TagAsked(0, ptr + 1, TagGap);
    } else if b.Gt? {
      t := Tok(StartNoAtts, ptr + 1);
    } else if b.Sol? {
      t := ScanSlash(s, ptr + 1, false);
    } else {
      t := Invalid(ptr);
    }
  }

  /** The run from `i` comes to the token `t`. */
  ghost predicate TagEnds(enc: Encoding, s: seq<Byte>, i: nat, st: TagState, t: Token) {
    i <= |s| && forall p {:trigger TagAsked(p, i, st)} :: TagAsked(p, i, st) ==> TagRun(enc, s, i, st) == t
  }

  method ScanTagName(enc: Encoding, s: seq<Byte>, start: nat) returns (t: Token)
    requires start <= |s|
    ensures t == TagRun(enc, s, start, TagName(false))
  {
    t := ScanTag(enc, s, start);
    assert TagAsked(0, start, TagName(false));
  }

  /** A start tag from the second character of its name on. */
  method ScanTag(enc: Encoding, s: seq<Byte>, start: nat) returns (t: Token)
    requires start <= |s|
    ensures TagEnds(enc, s, start, TagName(false), t) == true
  {
    var ptr, hadColon := start, false;
    ghost var first := TagName(false);
    while ptr != |s|
      invariant start <= ptr <= |s|
      invariant SameTag(enc, s, start, first, ptr, TagName(hadColon)) == true
      decreases |s| - ptr
    {
      match NameStep(enc, s, ptr)
      case Short =>
        TagOff(enc, s, start, first, ptr, TagName(hadColon), PartialChar);
        return PartialChar;
      case Bad =>
        TagOff(enc, s, start, first, ptr, TagName(hadColon), Invalid(ptr));
        return Invalid(ptr);
      case Skip(n) =>
        TagOn(enc, s, start, first, ptr, TagName(hadColon), ptr + n, TagName(hadColon));
        ptr := ptr + n;
      case Own =>
        if !enc.byteType(s[ptr]).Colon? || hadColon {
          t := ScanTagByte(enc, s, ptr, hadColon);
          TagThen(enc, s, start, first, ptr, TagName(hadColon), t);
          return;
        }
        TagOn(enc, s, start, first, ptr, TagName(hadColon), ptr + 1, TagColon);
        hadColon := true;
        var next;
        t, next := ScanAfterColon(enc, s, ptr + 1);
        if !t.NoToken? {
          TagOff(enc, s, start, first, ptr + 1, TagColon, t);
          return;
        }
        TagOn(enc, s, start, first, ptr + 1, TagColon, next, TagName(true));
        ptr := next;
    }
    TagOff(enc, s, start, first, ptr, TagName(hadColon), Partial);
    return Partial;
  }

  /** `<!`, `<?` and `</`. */
  method ScanMarkup(enc: Encoding, s: seq<Byte>, start: nat) returns (t: Token)
    requires start < |s| && NmstrtStep(enc, s, start).Own?
    ensures t == LtRun(enc, s, start)
  {
    var ptr, b := start, enc.byteType(s[start]);
    if b.Excl? {
      ptr := ptr + 1;
      if ptr == |s| {
        return Partial;
      }
      if enc.byteType(s[ptr]).Minus? {
        t := ScanComment(enc, s, ptr + 1);
      } else if enc.byteType(s[ptr]).Lsqb? {
        t := ScanCdataSection(enc, s, ptr + 1);
      } else {
        t := Invalid(ptr);
      }
    } else if b.Quest? {
      t := ScanPi(enc, s, ptr + 1);
    } else if b.Sol? {
      t := ScanEndTag(enc, s, ptr + 1);
    } else {
      t := Invalid(ptr);
    }
  }

  /** White space after the element name of a start tag. */
  method ScanTagGap(enc: Encoding, s: seq<Byte>, start: nat) returns (t: Token)
    requires start <= |s|
    ensures TagEnds(enc, s, start, TagGap, t) == true
  {
    var ptr := start;
    while ptr != |s|
      invariant start <= ptr <= |s|
      invariant SameTag(enc, s, start, TagGap, ptr, TagGap) == true
      decreases |s| - ptr
    {
      match NmstrtStep(enc, s, ptr)
      case Short =>
        TagOff(enc, s, start, TagGap, ptr, TagGap, PartialChar);
        return PartialChar;
      case Bad =>
        TagOff(enc, s, start, TagGap, ptr, TagGap, Invalid(ptr));
        return Invalid(ptr);
      case Skip(n) =>
        TagOn(enc, s, start, TagGap, ptr, TagGap, ptr + n, TagAtts);
        t := ScanAtts(enc, s, ptr + n);
        AttsEnd(enc, s, ptr + n, t);
        TagThen(enc, s, start, TagGap, ptr + n, TagAtts, t);
        return;
      case Own =>
        var b := enc.byteType(s[ptr]);
        if b.Gt? {
          TagOff(enc, s, start, TagGap, ptr, TagGap, Tok(StartNoAtts, ptr + 1));
          return Tok(StartNoAtts, ptr + 1);
        } else if b.Sol? {
          t := ScanSlash(s, ptr + 1, false);
          TagOff(enc, s, start, TagGap, ptr, TagGap, t);
          return;
        } else if !IsSpace(b) {
          TagOff(enc, s, start, TagGap, ptr, TagGap, Invalid(ptr));
          return Invalid(ptr);
        }
        TagOn(enc, s, start, TagGap, ptr, TagGap, ptr + 1, TagGap);
        ptr := ptr + 1;
    }
    TagOff(enc, s, start, TagGap, ptr, TagGap, Partial);
    return Partial;
  }

  method ScanData(enc: Encoding, s: seq<Byte>, start: nat) returns (t: Token)
    requires start <= |s|
    ensures t == DataRun(enc, s, start)
  {
    ghost var whole := DataRun(enc, s, start);
    var ptr := start;
    while ptr != |s|
      invariant start <= ptr <= |s|
      invariant whole == DataRun(enc, s, ptr)
      decreases |s| - ptr
    {
      match ValidStep(enc, s, ptr)
      case Short | Bad => return Tok(DataChars, ptr);
      case Skip(n) => ptr := ptr + n;
      case Own =>
        var b := enc.byteType(s[ptr]);
        if b.Rsqb? {
          if ptr + 1 != |s| {
            if s[ptr + 1] != ASCII_RSQB {
              ptr := ptr + 1;
              continue;
            }
            if ptr + 2 != |s| {
              if s[ptr + 2] != ASCII_GT {
                ptr := ptr + 1;
                continue;
              }
              return Invalid(ptr + 2);
            }
          }
          return Tok(DataChars, ptr);
        } else if b.Amp? || b.Lt? || b.Cr? || b.Lf? {
          return Tok(DataChars, ptr);
        }
        ptr := ptr + 1;
    }
    return Tok(DataChars, ptr);
  }

  method ScanCdata(enc: Encoding, s: seq<Byte>, start: nat) returns (t: Token)
    requires start <= |s|
    ensures t == CdataRun(enc, s, start)
  {
    ghost var whole := CdataRun(enc, s, start);
    var ptr := start;
    while ptr != |s|
      invariant start <= ptr <= |s|
      invariant whole == CdataRun(enc, s, ptr)
      decreases |s| - ptr
    {
      match ValidStep(enc, s, ptr)
      case Short | Bad => return Tok(DataChars, ptr);
      case Skip(n) => ptr := ptr + n;
      case Own =>
        var b := enc.byteType(s[ptr]);
        if b.Rsqb? || b.Cr? || b.Lf? {
          return Tok(DataChars, ptr);
        }
        ptr := ptr + 1;
    }
    return Tok(DataChars, ptr);
  }

  /** `contentTok`. */
  method NextContentTok(enc: Encoding, s: seq<Byte>) returns (t: Token)
    ensures t == ContentTok(enc, s)
  {
    if s == [] {
      return NoToken;
    }
    var ptr, b := 0, enc.byteType(s[0]);
    if b.Lt? {
      t := ScanLt(enc, s, 1);
      return;
    } else if b.Amp? {
      t := ScanRef(enc, s, 1);
      return;
    } else if b.Cr? {
      ptr := 1;
      if ptr == |s| {
        return TrailingCr;
      }
      if enc.byteType(s[ptr]).Lf? {
        ptr := ptr + 1;
      }
      return Tok(DataNewline, ptr);
    } else if b.Lf? {
      return Tok(DataNewline, 1);
    } else if b.Rsqb? {
      ptr := 1;
      if ptr == |s| {
        return TrailingRsqb;
      }
      if s[ptr] == ASCII_RSQB {
        ptr := ptr + 1;
        if ptr == |s| {
          return TrailingRsqb;
        }
        if s[ptr] == ASCII_GT {
          return Invalid(ptr);
        }
        ptr := ptr - 1;
      }
    } else {
      match ValidStep(enc, s, 0)
      case Short => return PartialChar;
      case Bad => return Invalid(0);
      case Skip(n) => ptr := n;
      case Own => ptr := 1;
    }
    t := ScanData(enc, s, ptr);
  }

  /** `cdataSectionTok`. */
  method NextCdataTok(enc: Encoding, s: seq<Byte>) returns (t: Token)
    ensures t == CdataTok(enc, s)
  {
    if s == [] {
      return NoToken;
    }
    var ptr, b := 0, enc.byteType(s[0]);
    if b.Rsqb? {
      ptr := 1;
      if ptr == |s| {
        return Partial;
      }
      if s[ptr] == ASCII_RSQB {
        ptr := ptr + 1;
        if ptr == |s| {
          return Partial;
        }
        if s[ptr] == ASCII_GT {
          return Tok(CdataClose, ptr + 1);
        }
        ptr := ptr - 1;
      }
    } else if b.Cr? {
      ptr := 1;
      if ptr == |s| {
        return Partial;
      }
      if enc.byteType(s[ptr]).Lf? {
        ptr := ptr + 1;
      }
      return Tok(DataNewline, ptr);
    } else if b.Lf? {
      return Tok(DataNewline, 1);
    } else {
      match ValidStep(enc, s, 0)
      case Short => return PartialChar;
      case Bad => return Invalid(0);
      case Skip(n) => ptr := n;
      case Own => ptr := 1;
    }
    t := ScanCdata(enc, s, ptr);
  }
}
