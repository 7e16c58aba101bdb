/** The one-pass code behind attribute values (expat/xmlparse.c:4701-4863,
    expat/xmltok_impl.c:1199-1255, 1520-1555): tokens are appended to a string pool as
    they come, entities are entered with their `open` flag set. */
module AttStore {
  import opened Wrappers
  import opened Endian
  import opened Unicode
  import opened XmlBytes
  import opened XmlScan
  import opened XmlTok
  import opened AttValue

  // ----- the tokens of a value

  datatype ValueToken =
    | End | BadByte | Data(n: nat) | Space(n: nat) | LastCr | Ref(t: Token)

  /** The bytes in front of the first reference, white space or `<`. */
  function Plain(enc: Encoding, s: seq<Byte>): (n: nat)
    ensures n <= |s|
    decreases |s|
  {
    if s == [] || enc.byteType(s[0]).Amp? || enc.byteType(s[0]).Lt? || IsSpace(enc.byteType(s[0])) then 0
    else CharLen(enc, s) + Plain(enc, s[CharLen(enc, s)..])
  }

  /** The first token of a value. */
  function ValueTok(enc: Encoding, s: seq<Byte>): ValueToken {
    var n := Plain(enc, s);
    if s == [] then End
    else if n < |s| && enc.byteType(s[n]).Lt? then BadByte
    else if n > 0 then Data(n)
    else if enc.byteType(s[0]).Amp? then Ref(RefRun(enc, s, 1, RefFirst))
    else if enc.byteType(s[0]).Cr? && |s| == 1 then LastCr
    else Space(SpaceLen(enc, s, true))
  }

  /** The bytes before `i` are plain; behind a quantifier, so that the loop only passes it on. */
  ghost predicate PlainTo(enc: Encoding, s: seq<Byte>, i: nat)
    requires i <= |s|
  {
    forall p {:trigger PlainAsked(p, i)} :: PlainAsked(p, i) ==> Whole(enc, s[i..]) && Plain(enc, s) == i + Plain(enc, s[i..])
  }

  predicate PlainAsked(p: int, i: nat) { true }

  lemma PlainStart(enc: Encoding, s: seq<Byte>)
    requires Whole(enc, s)
    ensures PlainTo(enc, s, 0) == true
  {
    assert s[0..] == s;
  }

  lemma PlainOn(enc: Encoding, s: seq<Byte>, i: nat)
    requires i < |s| && PlainTo(enc, s, i) == true
    requires !enc.byteType(s[i]).Amp? && !enc.byteType(s[i]).Lt? && !IsSpace(enc.byteType(s[i]))
    ensures var j := i + (if IsLead(enc.byteType(s[i])) then LeadWidth(enc.byteType(s[i])) else 1);
            j <= |s| && PlainTo(enc, s, j) == true
  {
    assert PlainAsked(0, i);
    var n := CharLen(enc, s[i..]);
    assert s[i..][n..] == s[i + n..];
  }

  /** Where the plain bytes end. */
  lemma PlainOff(enc: Encoding, s: seq<Byte>, i: nat)
    requires i <= |s| && PlainTo(enc, s, i) == true
    requires i < |s| ==> enc.byteType(s[i]).Amp? || enc.byteType(s[i]).Lt? || IsSpace(enc.byteType(s[i]))
    ensures Plain(enc, s) == i
  {
    assert PlainAsked(0, i);
  }

  /** The token in front of the byte at `ptr`, which ends the plain ones. */
  method ScanValueEnd(enc: Encoding, s: seq<Byte>, ptr: nat) returns (t: ValueToken)
    requires ptr < |s| && Plain(enc, s) == ptr
    requires enc.byteType(s[ptr]).Amp? || enc.byteType(s[ptr]).Lt? || IsSpace(enc.byteType(s[ptr]))
    ensures t == ValueTok(enc, s)
  {
    var b := enc.byteType(s[ptr]);
    if b.Amp? {
      if ptr == 0 {
        var r := ScanRef(enc, s, 1);
        return Ref(r);
      }
      return Data(ptr);
    } else if b.Lt? {
      return BadByte;
    } else if b.Lf? || b.S? {
      return if ptr == 0 then Space(1) else Data(ptr);
    }
    if ptr > 0 {
      return Data(ptr);
    }
    if |s| == 1 {
      return LastCr;
    }
    return Space(if enc.byteType(s[1]).Lf? then 2 else 1);
  }

  /** `attributeValueTok` */
  method AttributeValueTok(enc: Encoding, s: seq<Byte>) returns (t: ValueToken)
    requires Whole(enc, s)
    ensures t == ValueTok(enc, s)
  {
    if s == [] {
      return End;
    }
    var ptr := 0;
    PlainStart(enc, s);
    while ptr != |s|
      invariant ptr <= |s| && PlainTo(enc, s, ptr) == true
      decreases |s| - ptr
    {
      var b := enc.byteType(s[ptr]);
      if b.Amp? || b.Lt? || IsSpace(b) {
        PlainOff(enc, s, ptr);
        t := ScanValueEnd(enc, s, ptr);
        return;
      }
      PlainOn(enc, s, ptr);
      ptr := ptr + (if IsLead(b) then LeadWidth(b) else 1);
    }
    PlainOff(enc, s, ptr);
    return Data(ptr);
  }

  lemma BeforeTwice(a: seq<Byte>, b: seq<Byte>, r: Result)
    ensures Before(Ok(a), Before(Ok(b), r)) == Before(Ok(a + b), r) && Before(Ok([]), r) == r
  {
    if r.Ok? {
      assert a + (b + r.text) == (a + b) + r.text && [] + r.text == r.text;
    }
  }

  /** A character that is no white space has no space in it. */
  lemma NoSpaceInside(enc: Encoding, s: seq<Byte>)
    requires Whole(enc, s) && AsciiTable(enc) && Plain(enc, s) > 0
    ensures SPACE !in s[..CharLen(enc, s)]
  {
    var k := CharLen(enc, s);
    assert s[..k] == [s[0]] + s[1..k];
  }

  lemma NoSpaceConcat(a: seq<Byte>, b: seq<Byte>)
    requires SPACE !in a && SPACE !in b
    ensures SPACE !in a + b
  {
  }

  /** Plain bytes contain no space. */
  lemma PlainBytes(enc: Encoding, s: seq<Byte>)
    requires Whole(enc, s) && AsciiTable(enc)
    ensures SPACE !in s[..Plain(enc, s)] && Whole(enc, s[Plain(enc, s)..])
  {
    assert s[0..] == s && s[0..Plain(enc, s)] == s[..Plain(enc, s)];
    PlainFrom(enc, s, 0, Plain(enc, s));
  }

  lemma {:induction false} PlainFrom(enc: Encoding, s: seq<Byte>, i: nat, n: nat)
    requires i <= n <= |s| && n == i + Plain(enc, s[i..]) && Whole(enc, s[i..]) && AsciiTable(enc)
    ensures SPACE !in s[i..n] && Whole(enc, s[n..])
    decreases |s| - i
  {
    if i < n {
      var j := i + CharLen(enc, s[i..]);
      Slices(s, i, j, n);
      NoSpaceInside(enc, s[i..]);
      PlainFrom(enc, s, j, n);
      NoSpaceConcat(s[i..j], s[j..n]);
    }
  }

  /** The value of `s` is `r`. */
  ghost predicate Means(e: Env, open: set<seq<Byte>>, s: seq<Byte>, r: Result) {
    forall k {:trigger Asked(k)} :: Asked(k) ==> Expand(e, open, s, true, true) == r
  }

  predicate Asked(k: int) { true }

  lemma PlainStep(e: Env, open: set<seq<Byte>>, s: seq<Byte>, rest: seq<Byte>, r: Result)
    requires Plain(e.enc, s) > 0 && rest == s[CharLen(e.enc, s)..] && Means(e, open, rest, r)
    ensures Means(e, open, s, Before(Ok(s[..CharLen(e.enc, s)]), r))
  {
    assert Asked(0);
  }

  lemma Slices(s: seq<Byte>, i: nat, j: nat, n: nat)
    requires i <= j <= n <= |s|
    ensures s[i..][j - i..] == s[j..] && s[i..][..j - i] == s[i..j] && s[i..n] == s[i..j] + s[j..n]
  {
  }

  lemma {:induction false} PlainMeans(e: Env, open: set<seq<Byte>>, s: seq<Byte>, i: nat, n: nat, r: Result)
    requires i <= n <= |s| && n == i + Plain(e.enc, s[i..]) && Means(e, open, s[n..], r)
    ensures Means(e, open, s[i..], Before(Ok(s[i..n]), r))
    decreases |s| - i
  {
    if n == i {
      BeforeTwice([], [], r);
    } else {
      var j := i + CharLen(e.enc, s[i..]);
      Slices(s, i, j, n);
      PlainMeans(e, open, s, j, n, r);
      PlainStep(e, open, s[i..], s[j..], Before(Ok(s[j..n]), r));
      BeforeTwice(s[i..j], s[j..n], r);
    }
  }

  /** Plain bytes stand for themselves. */
  lemma PlainExpands(e: Env, open: set<seq<Byte>>, s: seq<Byte>)
    ensures var n := Plain(e.enc, s);
            Expand(e, open, s, true, true) == Before(Ok(s[..n]), Expand(e, open, s[n..], true, true))
  {
    var n := Plain(e.enc, s);
    assert s[0..] == s && s[0..n] == s[..n];
    PlainMeans(e, open, s, 0, n, Expand(e, open, s[n..], true, true));
    assert Asked(0);
  }

  // ----- character references

  lemma {:induction false} ValueGrows(digits: seq<Byte>, base: nat, k: nat)
    requires (base == 10 || base == 16) && k <= |digits|
    ensures Value(digits[..k], base) <= Value(digits, base)
    decreases |digits|
  {
    if k == |digits| {
      assert digits[..k] == digits;
    } else {
      var n := |digits| - 1;
      ValueGrows(digits[..n], base, k);
      assert digits[..n][..k] == digits[..k];
    }
  }

  predicate IsDecimal(b: Byte) { 0x30 <= b <= 0x39 }

  predicate IsHex(b: Byte) { IsDecimal(b) || 0x41 <= b <= 0x46 || 0x61 <= b <= 0x66 }

  /** What the scanner has checked of a character reference. */
  predicate CharRefForm(tok: seq<Byte>) {
    |tok| >= 4 && tok[|tok| - 1] == 0x3B &&
    if tok[2] == 0x78 then forall i | 3 <= i < |tok| - 1 :: IsHex(tok[i])
    else forall i | 2 <= i < |tok| - 1 :: IsDecimal(tok[i])
  }

  /** One digit more. */
  lemma ValueNext(digits: seq<Byte>, base: nat, k: nat)
    requires (base == 10 || base == 16) && k < |digits|
    ensures Value(digits[..k + 1], base) == base * Value(digits[..k], base) + DigitOf(digits[k])
    ensures Value(digits[..k + 1], base) <= Value(digits, base)
  {
    assert digits[..k + 1][..k] == digits[..k] && digits[..k + 1][k] == digits[k];
    ValueGrows(digits, base, k + 1);
  }

  /** The hexadecimal loop of `charRefNumber` from `first` on, which gives up as soon as the
      number is too large. */
  method ScanHex(tok: seq<Byte>, first: nat) returns (r: int)
    requires first < |tok| && tok[|tok| - 1] == 0x3B && forall i | first <= i < |tok| - 1 :: IsHex(tok[i])
    ensures var n := Value(tok[first..|tok| - 1], 16); r == if n < 0x11_0000 then n else -1
  {
    ghost var digits := tok[first..|tok| - 1];
    var ptr, result := first, 0;
    while tok[ptr] != 0x3B
      invariant first <= ptr < |tok| && 0 <= result < 0x11_0000 && result == Value(digits[..ptr - first], 16)
      decreases |tok| - ptr
    {
      var c: int := tok[ptr];
      ValueNext(digits, 16, ptr - first);
      if 0x30 <= c <= 0x39 {
        result := result * 16 + (c - 0x30);
      } else if 0x41 <= c <= 0x46 {
        result := result * 16 + 10 + (c - 0x41);
      } else if 0x61 <= c <= 0x66 {
        result := result * 16 + 10 + (c - 0x61);
      }
      if result >= 0x11_0000 {
        return -1;
      }
      ptr := ptr + 1;
    }
    assert digits[..ptr - first] == digits;
    return result;
  }

  /** The decimal loop. */
  method ScanDecimal(tok: seq<Byte>, first: nat) returns (r: int)
    requires first < |tok| && tok[|tok| - 1] == 0x3B && forall i | first <= i < |tok| - 1 :: IsDecimal(tok[i])
    ensures var n := Value(tok[first..|tok| - 1], 10); r == if n < 0x11_0000 then n else -1
  {
    ghost var digits := tok[first..|tok| - 1];
    var ptr, result := first, 0;
    while tok[ptr] != 0x3B
      invariant first <= ptr < |tok| && 0 <= result < 0x11_0000 && result == Value(digits[..ptr - first], 10)
      decreases |tok| - ptr
    {
      var c: int := tok[ptr];
      ValueNext(digits, 10, ptr - first);
      result := result * 10 + (c - 0x30);
      if result >= 0x11_0000 {
        return -1;
      }
      ptr := ptr + 1;
    }
    assert digits[..ptr - first] == digits;
    return result;
  }

  /** `charRefNumber` */
  method ScanNumber(tok: seq<Byte>) returns (r: int)
    requires CharRefForm(tok)
    ensures r == if IsChar(CharRefNumber(tok)) then CharRefNumber(tok) else -1
  {
    if tok[2] == 0x78 {
      r := ScanHex(tok, 3);
    } else {
      r := ScanDecimal(tok, 2);
    }
    if r >= 0 {
      r := CheckCharRefNumber(r);
    }
  }

  lemma {:induction false} DecimalRun(enc: Encoding, s: seq<Byte>, i: nat)
    requires AsciiTable(enc) && i <= |s| && RefRun(enc, s, i, NumDec).Tok?
    ensures var t := RefRun(enc, s, i, NumDec);
            t.kind.CharRef? && s[t.next - 1] == 0x3B && forall j | i <= j < t.next - 1 :: IsDecimal(s[j])
    decreases |s| - i
  {
    if enc.byteType(s[i]).Digit? { DecimalRun(enc, s, i + 1); }
  }

  lemma {:induction false} HexRun(enc: Encoding, s: seq<Byte>, i: nat)
    requires AsciiTable(enc) && i <= |s| && RefRun(enc, s, i, NumHex).Tok?
    ensures var t := RefRun(enc, s, i, NumHex);
            t.kind.CharRef? && s[t.next - 1] == 0x3B && forall j | i <= j < t.next - 1 :: IsHex(s[j])
    decreases |s| - i
  {
    if !enc.byteType(s[i]).Semi? { HexRun(enc, s, i + 1); }
  }

  lemma {:induction false} NameRun(enc: Encoding, s: seq<Byte>, i: nat)
    requires i <= |s| && RefRun(enc, s, i, RefName).Tok?
    ensures RefRun(enc, s, i, RefName).kind.EntityRef?
    decreases |s| - i
  {
    var m := RefStep(enc, s, i, RefName);
    if m.Go? { NameRun(enc, s, m.i); }
  }

  /** A reference that the scanner has accepted. */
  lemma AcceptedRef(enc: Encoding, s: seq<Byte>)
    requires AsciiTable(enc) && s != [] && RefRun(enc, s, 1, RefFirst).Tok?
    ensures var t := RefRun(enc, s, 1, RefFirst);
            2 <= t.next <= |s| && (t.kind.CharRef? || t.kind.EntityRef?) && (t.kind.CharRef? ==> CharRefForm(s[..t.next]))
  {
    var m := RefStep(enc, s, 1, RefFirst);
    if m.st.RefName? {
      NameRun(enc, s, m.i);
    } else {
      var t := RefRun(enc, s, 1, RefFirst);
      assert t == RefRun(enc, s, 2, NumFirst);
      if s[2] == 0x78 {
        assert t == RefRun(enc, s, 3, NumHexFirst) == RefRun(enc, s, 4, NumHex);
        HexRun(enc, s, 4);
      } else {
        assert t == RefRun(enc, s, 3, NumDec);
        DecimalRun(enc, s, 3);
      }
    }
  }

  lemma SpaceWhole(enc: Encoding, s: seq<Byte>)
    requires s != [] && Whole(enc, s) && IsSpace(enc.byteType(s[0]))
    ensures Whole(enc, s[SpaceLen(enc, s, true)..])
  {
    if SpaceLen(enc, s, true) == 2 {
      assert s[1..][0] == s[1] && s[1..][1..] == s[2..];
    }
  }

  /** A reference at the start of a value. */
  lemma RefFacts(e: Env, open: set<seq<Byte>>, s: seq<Byte>)
    requires s != [] && Whole(e.enc, s) && AsciiTable(e.enc) && e.enc.byteType(s[0]).Amp?
    ensures var r := RefRun(e.enc, s, 1, RefFirst);
            if !r.Tok? then
              Expand(e, open, s, true, true) == Fail(if r.PartialChar? then UnexpectedState else InvalidToken)
            else
              2 <= r.next <= |s| && Whole(e.enc, s[r.next..]) && (r.kind.CharRef? || r.kind.EntityRef?) &&
              (r.kind.CharRef? ==> CharRefForm(s[..r.next])) &&
              Expand(e, open, s, true, true) ==
              Before(Reference(e, open, s[..r.next], r.kind, true), Expand(e, open, s[r.next..], true, true))
  {
    var r := RefRun(e.enc, s, 1, RefFirst);
    if r.Tok? {
      AcceptedRef(e.enc, s);
    }
  }

  // ----- the parser's part

  /** `ENTITY`: an entity, of which expansion changes only the flag. */
  class Entity {
    const hasText: bool
    const text: seq<Byte>
    const notation: bool
    const isInternal: bool
    var open: bool

    constructor (e: Ent)
      ensures Decl() == e && !open
    {
      hasText, text, notation, isInternal, open := e.hasText, e.text, e.notation, e.isInternal, false;
    }

    ghost function Decl(): Ent { Ent(hasText, text, notation, isInternal) }
  }

  class Parser {
    const enc: Encoding
    const generalEntities: map<seq<Byte>, Entity>
    const documentEntity: bool
    const standalone: bool
    const openInternalEntities: bool
    const hasParamEntityRefs: bool
    var pool: seq<Byte>

    /** The texts were checked when they were stored, and no two names share an entity. */
    ghost predicate Valid() {
      AsciiTable(enc) &&
      (forall n | n in generalEntities :: Whole(enc, generalEntities[n].text)) &&
      forall m, n | m in generalEntities && n in generalEntities && m != n :: generalEntities[m] != generalEntities[n]
    }

    /** Whether an undeclared entity is an error, in the prolog or in content. */
    function CheckEntityDecl(fromProlog: bool): bool {
      if fromProlog then documentEntity && (if standalone then !openInternalEntities else !hasParamEntityRefs)
      else !hasParamEntityRefs || standalone
    }

    ghost function View(fromProlog: bool): Env {
      Env(enc, map n | n in generalEntities :: generalEntities[n].Decl(), CheckEntityDecl(fromProlog))
    }

    ghost function Open(): set<seq<Byte>>
      reads generalEntities.Values
    {
      set n | n in generalEntities && generalEntities[n].open
    }

    constructor (enc: Encoding, generalEntities: map<seq<Byte>, Entity>, documentEntity: bool, standalone: bool,
                 openInternalEntities: bool, hasParamEntityRefs: bool)
      ensures this.enc == enc && this.generalEntities == generalEntities && pool == []
      ensures CheckEntityDecl(false) == (!hasParamEntityRefs || standalone)
    {
      this.enc, this.generalEntities, this.documentEntity := enc, generalEntities, documentEntity;
      this.standalone, this.openInternalEntities, this.hasParamEntityRefs := standalone, openInternalEntities, hasParamEntityRefs;
      pool := [];
    }

    method PutSpace(isCdata: bool)
      modifies this`pool
      ensures pool == PutAll(isCdata, old(pool), [SPACE])
    {
      if !isCdata && (|pool| == 0 || pool[|pool| - 1] == SPACE) {
        return;
      }
      pool := pool + [SPACE];
    }

    /** The case of a character reference. */
    method PutCharRef(isCdata: bool, tok: seq<Byte>) returns (error: Option<Error>)
      requires CharRefForm(tok)
      modifies this`pool
      ensures Appended(isCdata, old(pool), CharRefText(tok), pool, error)
    {
      var n := ScanNumber(tok);
      if n < 0 {
        return Some(BadCharRef);
      }
      error := None;
      if !isCdata && n == 0x20 && (|pool| == 0 || pool[|pool| - 1] == SPACE) {
        return;
      }
      if n != 0x20 { PutPlain(isCdata, pool, Encode8(n)); }
      pool := pool + Encode8(n);
    }

    /** The case of an entity reference: an internal entity is entered with its flag set,
        and the flag is cleared again whatever comes of it. */
    method PutEntityRef(isCdata: bool, fromProlog: bool, tok: seq<Byte>) returns (error: Option<Error>)
      requires Valid() && |tok| >= 2
      modifies this`pool, generalEntities.Values
      ensures Appended(isCdata, old(pool), Reference(View(fromProlog), old(Open()), tok, EntityRef, true), pool, error)
      ensures Open() == old(Open())
      decreases generalEntities.Keys - Open(), |tok|, 0
    {
      var name := tok[1..|tok| - 1];
      var ch := Predefined(name);
      if ch != 0 {
        pool := pool + [ch];
        return None;
      }
      if CheckEntityDecl(fromProlog) {
        if name !in generalEntities {
          return Some(UndefinedEntity);
        }
        if !generalEntities[name].isInternal {
          return Some(EntityDeclaredInPe);
        }
      } else if name !in generalEntities {
        return None;
      }
      var entity := generalEntities[name];
      if entity.open {
        return Some(RecursiveEntityRef);
      }
      if entity.notation {
        return Some(BinaryEntityRef);
      }
      if !entity.hasText {
        return Some(ExternalEntityRef);
      }
      entity.open := true;
      assert Open() == old(Open()) + {name};
      assert name in generalEntities.Keys - old(Open());
      error := AppendAttributeValue(isCdata, fromProlog, entity.text);
      entity.open := false;
    }

    /** The reference at the start of `s`, scanned as `r`. */
    method PutRef(isCdata: bool, fromProlog: bool, s: seq<Byte>, r: Token)
      returns (error: Option<Error>, n: nat, ghost v: seq<Byte>)
      requires Valid() && Whole(enc, s) && s != [] && enc.byteType(s[0]).Amp? && r == RefRun(enc, s, 1, RefFirst)
      modifies this`pool, generalEntities.Values
      ensures TokenDone(isCdata, View(fromProlog), old(Open()), s, old(pool), pool, error, n, v) == true
      ensures Open() == old(Open())
      decreases generalEntities.Keys - Open(), |s|, 1
    {
      ghost var e, open := View(fromProlog), Open();
      n, v := 0, [];
      RefFacts(e, open, s);
      if !r.Tok? {
        return Some(if r.PartialChar? then UnexpectedState else InvalidToken), n, v;
      }
      n := r.next;
      ghost var text := Reference(e, open, s[..n], r.kind, true);
      if r.kind.CharRef? {
        error := PutCharRef(isCdata, s[..n]);
      } else {
        error := PutEntityRef(isCdata, fromProlog, s[..n]);
      }
      if text.Ok? {
        v := text.text;
      }
    }

    /** The switch of `appendAttributeValue` on the token `t` at the start of `s`. */
    method PutToken(isCdata: bool, fromProlog: bool, s: seq<Byte>, t: ValueToken)
      returns (error: Option<Error>, n: nat, ghost v: seq<Byte>)
      requires Valid() && Whole(enc, s) && s != [] && t == ValueTok(enc, s)
      modifies this`pool, generalEntities.Values
      ensures TokenDone(isCdata, View(fromProlog), old(Open()), s, old(pool), pool, error, n, v) == true
      ensures Open() == old(Open())
      decreases generalEntities.Keys - Open(), |s|, 2
    {
      ghost var e, open := View(fromProlog), Open();
      error, n, v := None, 0, [];
      match t
      case BadByte =>
        BadByteFails(e, open, s);
        error := Some(InvalidToken);
      case Data(k) =>
        n, v := k, s[..k];
        PlainBytes(enc, s);
        PlainExpands(e, open, s);
        PutPlain(isCdata, pool, v);
        pool := pool + s[..k];
      case Space(k) =>
        n, v := k, [SPACE];
        SpaceWhole(enc, s);
        PutSpace(isCdata);
      case LastCr =>
        n, v := 1, [SPACE];
        SpaceWhole(enc, s);
        PutSpace(isCdata);
      case Ref(r) =>
        error, n, v := PutRef(isCdata, fromProlog, s, r);
    }

    /** `appendAttributeValue`: one pass over the text, entering entities on the way, comes
        to the recursive expansion of the text. */
    method AppendAttributeValue(isCdata: bool, fromProlog: bool, text: seq<Byte>) returns (error: Option<Error>)
      requires Valid() && Whole(enc, text)
      modifies this`pool, generalEntities.Values
      ensures Appended(isCdata, old(pool), Expand(View(fromProlog), old(Open()), text, true, true), pool, error)
      ensures Open() == old(Open())
      decreases generalEntities.Keys - Open(), |text|, 3
    {
      var s := text;
      ghost var e, open, got := View(fromProlog), Open(), [];
      BeforeTwice([], [], Expand(e, open, s, true, true));
      while true
        invariant Open() == open && |s| <= |text| && Whole(enc, s)
        invariant pool == PutAll(isCdata, old(pool), got)
        invariant Expand(e, open, text, true, true) == Before(Ok(got), Expand(e, open, s, true, true))
        decreases |s|
      {
        var t := AttributeValueTok(enc, s);
        if t.End? {
          assert got + [] == got;
          return None;
        }
        ghost var v: seq<Byte>;
        var n: nat;
        error, n, v := PutToken(isCdata, fromProlog, s, t);
        if error.Some? {
          return;
        }
        BeforeTwice(got, v, Expand(e, open, s[n..], true, true));
        PutAllConcat(isCdata, old(pool), got, v);
        s, got := s[n..], got + v;
      }
    }

    /** `storeAttributeValue`: the normalized value, the error if there is one, and every
        entity closed that was. */
    method StoreAttributeValue(isCdata: bool, fromProlog: bool, text: seq<Byte>) returns (error: Option<Error>)
      requires Valid() && Whole(enc, text) && pool == [] && Open() == {}
      modifies this`pool, generalEntities.Values
      ensures match ByCode(View(fromProlog), isCdata, text)
              case Ok(v) => error == None && pool == v
              case Fail(e) => error == Some(e)
      ensures Open() == {}
    {
      error := AppendAttributeValue(isCdata, fromProlog, text);
      if error.Some? {
        return;
      }
      ghost var r := Expand(View(fromProlog), {}, text, true, true);
      StoredIsNormalized(isCdata, r.text);
      if !isCdata && |pool| > 0 && pool[|pool| - 1] == SPACE {
        pool := pool[..|pool| - 1];
      }
    }
  }

  lemma BadByteFails(e: Env, open: set<seq<Byte>>, s: seq<Byte>)
    requires ValueTok(e.enc, s).BadByte?
    ensures Expand(e, open, s, true, true) == Fail(InvalidToken)
  {
    PlainExpands(e, open, s);
  }

  /** What the first token of a value comes to: `n` bytes read that stand for `v`, or the
      error that the value is. */
  ghost predicate TokenDone(isCdata: bool, e: Env, open: set<seq<Byte>>, s: seq<Byte>, before: seq<Byte>,
                            after: seq<Byte>, error: Option<Error>, n: nat, v: seq<Byte>)
  {
    if error.Some? then Expand(e, open, s, true, true) == Fail(error.value)
    else
      0 < n <= |s| && Whole(e.enc, s[n..]) && after == PutAll(isCdata, before, v) &&
      Expand(e, open, s, true, true) == Before(Ok(v), Expand(e, open, s[n..], true, true))
  }

  /** What appending a text comes to. */
  ghost predicate Appended(isCdata: bool, before: seq<Byte>, r: Result, after: seq<Byte>, error: Option<Error>) {
    match r
    case Ok(v) => error == None && after == PutAll(isCdata, before, v)
    case Fail(e) => error == Some(e)
  }
}
