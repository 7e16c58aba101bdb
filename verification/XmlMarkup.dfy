/** The tokenizer on printed markup: each piece of markup is one token of its kind, which
    ends where the piece ends (expat/xmltok_impl.c:87-299, 377-779). */
module XmlMarkup {
  import opened Wrappers
  import opened Endian
  import opened XmlBytes
  import opened XmlScan
  import opened XmlContent
  import opened XmlPrint

  // ----- positions in a text

  /** From `i` on, `s` is `x`. */
  ghost predicate Rest(s: seq<Byte>, i: nat, x: seq<Byte>) { i <= |s| && Behind(s, i, x) }

  predicate Asked(k: nat, s: seq<Byte>, i: nat) { true }

  ghost predicate Behind(s: seq<Byte>, i: nat, x: seq<Byte>)
    requires i <= |s|
  {
    forall k {:trigger Asked(k, s, i)} :: Asked(k, s, i) ==> s[i..] == x
  }

  lemma RestIs(s: seq<Byte>, i: nat, x: seq<Byte>)
    requires i <= |s|
    ensures Rest(s, i, x) <==> s[i..] == x
  {
    assert Asked(0, s, i);
  }

  lemma Whole(s: seq<Byte>)
    ensures Rest(s, 0, s)
  {
    RestIs(s, 0, s);
  }

  lemma Past(s: seq<Byte>, i: nat, a: seq<Byte>, b: seq<Byte>)
    requires Rest(s, i, a + b)
    ensures i + |a| <= |s| && Rest(s, i + |a|, b) && s[i..i + |a|] == a
    ensures a != [] ==> s[i] == a[0]
  {
    RestIs(s, i, a + b);
    assert s[i..][|a|..] == b;
    RestIs(s, i + |a|, b);
  }

  /** One byte further. */
  lemma Past1(s: seq<Byte>, i: nat, b: Byte, x: seq<Byte>)
    requires Rest(s, i, [b] + x)
    ensures i < |s| && s[i] == b && Rest(s, i + 1, x)
  {
    Past(s, i, [b], x);
  }

  lemma Done(s: seq<Byte>, i: nat)
    requires Rest(s, i, [])
    ensures i == |s|
  {
    RestIs(s, i, []);
  }

  lemma Assoc(a: seq<Byte>, b: seq<Byte>, c: seq<Byte>)
    ensures a + b + c == a + (b + c)
  {
  }

  lemma WhiteFirst(w: seq<Byte>, tail: seq<Byte>)
    requires w != [] && AllWhite(w)
    ensures w + tail == [w[0]] + (w[1..] + tail) && White(w[0]) && AllWhite(w[1..])
  {
  }

  lemma ConcatFirst(cs: seq<seq<Byte>>, tail: seq<Byte>)
    requires cs != []
    ensures Concat(cs) + tail == cs[0] + (Concat(cs[1..]) + tail)
  {
    Assoc(cs[0], Concat(cs[1..]), tail);
  }

  // ----- characters

  /** What the type of a byte is. */
  lemma TypeOf(enc: Encoding, b: Byte)
    requires Ascii(enc)
    ensures Agrees(b, enc.byteType(b))
  {
    assert Agrees(b, enc.byteType(b));
  }

  /** A character at `i` is what the tests on characters say. */
  lemma CharIs(enc: Encoding, s: seq<Byte>, i: nat, ch: seq<Byte>, tail: seq<Byte>)
    requires Ascii(enc) && OneChar(enc, ch) && Rest(s, i, ch + tail)
    ensures i < |s| && s[i] == ch[0] && Rest(s, i + |ch|, tail)
    ensures InName(enc, ch) ==> NameStep(enc, s, i) == CharRes.Skip(|ch|)
    ensures StartsName(enc, ch) ==> NmstrtStep(enc, s, i) == CharRes.Skip(|ch|)
    ensures Legal(enc, ch) ==>
              ValidStep(enc, s, i) == if IsLead(enc.byteType(ch[0])) then CharRes.Skip(|ch|) else Own
  {
    Past(s, i, ch, tail);
  }

  /** A character of one byte is that byte. */
  lemma OneByte(enc: Encoding, ch: seq<Byte>, b: Byte)
    requires Ascii(enc) && OneChar(enc, ch) && b in {0x22, 0x26, 0x27, 0x2D, 0x3C, 0x3E, 0x3F, 0x5D, 0x0A, 0x0D}
    ensures ch[0] == b <==> ch == [b]
  {
    TypeOf(enc, ch[0]);
  }

  lemma StartIsIn(enc: Encoding, ch: seq<Byte>)
    requires Ascii(enc) && StartsName(enc, ch)
    ensures InName(enc, ch)
  {
  }

  /** An ASCII byte that is no part of a name. */
  lemma NoName(enc: Encoding, s: seq<Byte>, i: nat)
    requires Ascii(enc) && i < |s|
    requires White(s[i]) || s[i] in {0x21, 0x2F, 0x3E, 0x3D, 0x3B, 0x3F}
    ensures NameStep(enc, s, i) == Own && NmstrtStep(enc, s, i) == Own
  {
    TypeOf(enc, s[i]);
  }

  // ----- references

  predicate WayAsked(k: nat, s: seq<Byte>, i: nat, j: nat) { true }

  /** The run from `i` in `st` goes on at `j` in `next`. */
  ghost predicate RefWay(enc: Encoding, s: seq<Byte>, i: nat, st: RefState, j: nat, next: RefState) {
    i <= |s| && j <= |s| &&
    forall k {:trigger WayAsked(k, s, i, j)} :: WayAsked(k, s, i, j) ==> RefRun(enc, s, i, st) == RefRun(enc, s, j, next)
  }

  lemma RefWayIs(enc: Encoding, s: seq<Byte>, i: nat, st: RefState, j: nat, next: RefState)
    requires i <= |s| && j <= |s|
    ensures RefWay(enc, s, i, st, j, next) <==> RefRun(enc, s, i, st) == RefRun(enc, s, j, next)
  {
    assert WayAsked(0, s, i, j);
  }

  lemma RefJoin(enc: Encoding, s: seq<Byte>, i: nat, st: RefState, j: nat, next: RefState, k: nat, last: RefState)
    requires RefWay(enc, s, i, st, j, next) && RefWay(enc, s, j, next, k, last)
    ensures RefWay(enc, s, i, st, k, last)
  {
    RefWayIs(enc, s, i, st, j, next);
    RefWayIs(enc, s, j, next, k, last);
    RefWayIs(enc, s, i, st, k, last);
  }

  lemma RefGo(enc: Encoding, s: seq<Byte>, i: nat, st: RefState, j: nat, next: RefState)
    requires i < |s| && RefStep(enc, s, i, st) == Go(j, next)
    ensures RefWay(enc, s, i, st, j, next)
  {
    RefWayIs(enc, s, i, st, j, next);
  }

  lemma RefNameChar(enc: Encoding, s: seq<Byte>, i: nat, ch: seq<Byte>, tail: seq<Byte>)
    requires Ascii(enc) && InName(enc, ch) && Rest(s, i, ch + tail)
    ensures Rest(s, i + |ch|, tail) && RefWay(enc, s, i, RefName, i + |ch|, RefName)
  {
    CharIs(enc, s, i, ch, tail);
    RefGo(enc, s, i, RefName, i + |ch|, RefName);
  }

  lemma {:induction false} RefNames(enc: Encoding, s: seq<Byte>, i: nat, cs: seq<seq<Byte>>, tail: seq<Byte>)
    requires Ascii(enc) && Rest(s, i, Concat(cs) + tail) && forall k | 0 <= k < |cs| :: InName(enc, cs[k])
    ensures Rest(s, i + |Concat(cs)|, tail) && RefWay(enc, s, i, RefName, i + |Concat(cs)|, RefName)
    decreases |cs|
  {
    if cs == [] {
      assert Concat(cs) + tail == tail;
      RefWayIs(enc, s, i, RefName, i, RefName);
    } else {
      var j := i + |cs[0]|;
      ConcatFirst(cs, tail);
      RefNameChar(enc, s, i, cs[0], Concat(cs[1..]) + tail);
      RefNames(enc, s, j, cs[1..], tail);
      RefJoin(enc, s, i, RefName, j, RefName, i + |Concat(cs)|, RefName);
    }
  }

  lemma {:induction false} RefDigits(enc: Encoding, s: seq<Byte>, i: nat, digits: seq<Byte>, st: RefState)
    requires Ascii(enc) && Rest(s, i, digits + [0x3B]) && (st == NumDec || st == NumHex)
    requires forall k | 0 <= k < |digits| :: if st == NumDec then IsDec(digits[k]) else IsHex(digits[k])
    ensures RefRun(enc, s, i, st) == Tok(CharRef, |s|)
    decreases |digits|
  {
    if digits == [] {
      assert digits + [0x3B] == [0x3B] + [];
      Past1(s, i, 0x3B, []);
      Done(s, i + 1);
      TypeOf(enc, s[i]);
    } else {
      assert digits + [0x3B] == [digits[0]] + (digits[1..] + [0x3B]);
      Past1(s, i, digits[0], digits[1..] + [0x3B]);
      TypeOf(enc, s[i]);
      RefDigits(enc, s, i + 1, digits[1..], st);
    }
  }

  function RefKind(r: Ref): Kind { if r.ByName? then EntityRef else CharRef }

  lemma RefStop(enc: Encoding, s: seq<Byte>, i: nat)
    requires Ascii(enc) && Rest(s, i, [0x3B])
    ensures RefRun(enc, s, i, RefName) == Tok(EntityRef, |s|)
  {
    assert [0x3B] == [0x3B] + [];
    Past1(s, i, 0x3B, []);
    Done(s, i + 1);
    NoName(enc, s, i);
    TypeOf(enc, s[i]);
  }

  lemma NameToken(enc: Encoding, s: seq<Byte>, i: nat, name: seq<seq<Byte>>)
    requires Ascii(enc) && NcName(enc, name) && Rest(s, i, Concat(name) + [0x3B])
    ensures RefRun(enc, s, i, RefFirst) == Tok(EntityRef, |s|)
  {
    var j := i + |name[0]|;
    var k := j + |Concat(name[1..])|;
    ConcatFirst(name, [0x3B]);
    CharIs(enc, s, i, name[0], Concat(name[1..]) + [0x3B]);
    RefGo(enc, s, i, RefFirst, j, RefName);
    RefNames(enc, s, j, name[1..], [0x3B]);
    RefStop(enc, s, k);
    RefJoin(enc, s, i, RefFirst, j, RefName, k, RefName);
    RefWayIs(enc, s, i, RefFirst, k, RefName);
  }

  /** From the first digit on. */
  lemma DigitToken(enc: Encoding, s: seq<Byte>, i: nat, d: seq<Byte>, hex: bool)
    requires Ascii(enc) && d != [] && Rest(s, i, d + [0x3B])
    requires forall k | 0 <= k < |d| :: if hex then IsHex(d[k]) else IsDec(d[k])
    ensures RefRun(enc, s, i, if hex then NumHexFirst else NumFirst) == Tok(CharRef, |s|)
  {
    var st, next := if hex then NumHexFirst else NumFirst, if hex then NumHex else NumDec;
    assert d + [0x3B] == [d[0]] + (d[1..] + [0x3B]);
    Past1(s, i, d[0], d[1..] + [0x3B]);
    TypeOf(enc, s[i]);
    RefGo(enc, s, i, st, i + 1, next);
    RefDigits(enc, s, i + 1, d[1..], next);
    RefWayIs(enc, s, i, st, i + 1, next);
  }

  lemma NumberToken(enc: Encoding, s: seq<Byte>, i: nat, r: Ref)
    requires Ascii(enc) && IsRef(enc, r) && !r.ByName? && Rest(s, i, RefBody(r) + [0x3B])
    ensures RefRun(enc, s, i, RefFirst) == Tok(CharRef, |s|)
  {
    var end := r.digits + [0x3B];
    if r.ByDec? {
      Assoc([0x23], r.digits, [0x3B]);
      Past1(s, i, 0x23, end);
      TypeOf(enc, s[i]);
      DigitToken(enc, s, i + 1, r.digits, false);
    } else {
      Assoc([0x23, 0x78], r.digits, [0x3B]);
      assert [0x23, 0x78] == [0x23] + [0x78];
      Assoc([0x23], [0x78], end);
      Past1(s, i, 0x23, [0x78] + end);
      Past1(s, i + 1, 0x78, end);
      TypeOf(enc, s[i]);
      RefGo(enc, s, i + 1, NumFirst, i + 2, NumHexFirst);
      DigitToken(enc, s, i + 2, r.digits, true);
      RefWayIs(enc, s, i + 1, NumFirst, i + 2, NumHexFirst);
    }
    RefGo(enc, s, i, RefFirst, i + 1, NumFirst);
    RefWayIs(enc, s, i, RefFirst, i + 1, NumFirst);
  }

  /** The reference behind an ampersand. */
  lemma RefToken(enc: Encoding, s: seq<Byte>, i: nat, r: Ref)
    requires Ascii(enc) && IsRef(enc, r) && Rest(s, i, RefBody(r) + [0x3B])
    ensures RefRun(enc, s, i, RefFirst) == Tok(RefKind(r), |s|)
  {
    if r.ByName? {
      NameToken(enc, s, i, r.name);
    } else {
      NumberToken(enc, s, i, r);
    }
  }

  /** A printed reference is one token. */
  lemma PrintedRef(enc: Encoding, r: Ref)
    requires Ascii(enc) && IsRef(enc, r)
    ensures ContentTok(enc, PrintRef(r)) == Tok(RefKind(r), |PrintRef(r)|)
  {
    var s := PrintRef(r);
    assert s == [0x26] + (RefBody(r) + [0x3B]);
    Whole(s);
    Past1(s, 0, 0x26, RefBody(r) + [0x3B]);
    TypeOf(enc, s[0]);
    RefToken(enc, s, 1, r);
  }

  // ----- names behind their first character

  /** The first character of a name. */
  function FirstChar(n: Name): seq<Byte>
    requires n.local != [] && (n.prefix.Some? ==> n.prefix.value != [])
  {
    if n.prefix.Some? then n.prefix.value[0] else n.local[0]
  }

  /** What follows it, and then `tail`. */
  function NameThen(n: Name, tail: seq<Byte>): seq<Byte>
    requires n.local != [] && (n.prefix.Some? ==> n.prefix.value != [])
  {
    if n.prefix.Some? then Concat(n.prefix.value[1..]) + ([0x3A] + (n.local[0] + (Concat(n.local[1..]) + tail)))
    else Concat(n.local[1..]) + tail
  }

  lemma NameParts(n: Name, tail: seq<Byte>)
    requires n.local != [] && (n.prefix.Some? ==> n.prefix.value != [])
    ensures PrintName(n) + tail == FirstChar(n) + NameThen(n, tail)
  {
    ConcatFirst(n.local, tail);
    if n.prefix.Some? {
      var p := n.prefix.value;
      ConcatFirst(p, [0x3A] + (Concat(n.local) + tail));
      Assoc(Concat(p) + [0x3A], Concat(n.local), tail);
      Assoc(Concat(p), [0x3A], Concat(n.local) + tail);
    } else {
      assert [] + Concat(n.local) == Concat(n.local);
    }
  }

  // ----- attributes

  /** The run from `i` in `st` goes on at `j` in `next`. */
  ghost predicate AttWay(enc: Encoding, s: seq<Byte>, i: nat, st: AttState, j: nat, next: AttState) {
    i <= |s| && j <= |s| &&
    forall k {:trigger WayAsked(k, s, i, j)} :: WayAsked(k, s, i, j) ==> AttRun(enc, s, i, st) == AttRun(enc, s, j, next)
  }

  lemma AttWayIs(enc: Encoding, s: seq<Byte>, i: nat, st: AttState, j: nat, next: AttState)
    requires i <= |s| && j <= |s|
    ensures AttWay(enc, s, i, st, j, next) <==> AttRun(enc, s, i, st) == AttRun(enc, s, j, next)
  {
    assert WayAsked(0, s, i, j);
  }

  lemma AttJoin(enc: Encoding, s: seq<Byte>, i: nat, st: AttState, j: nat, next: AttState, k: nat, last: AttState)
    requires AttWay(enc, s, i, st, j, next) && AttWay(enc, s, j, next, k, last)
    ensures AttWay(enc, s, i, st, k, last)
  {
    AttWayIs(enc, s, i, st, j, next);
    AttWayIs(enc, s, j, next, k, last);
    AttWayIs(enc, s, i, st, k, last);
  }

  lemma AttGo(enc: Encoding, s: seq<Byte>, i: nat, st: AttState, j: nat, next: AttState)
    requires i < |s| && AttStep(enc, s, i, st) == Go(j, next)
    ensures AttWay(enc, s, i, st, j, next)
  {
    AttWayIs(enc, s, i, st, j, next);
  }

  lemma AttNameChar(enc: Encoding, s: seq<Byte>, i: nat, ch: seq<Byte>, colon: bool, tail: seq<Byte>)
    requires Ascii(enc) && InName(enc, ch) && Rest(s, i, ch + tail)
    ensures Rest(s, i + |ch|, tail) && AttWay(enc, s, i, AttName(colon), i + |ch|, AttName(colon))
  {
    CharIs(enc, s, i, ch, tail);
    AttGo(enc, s, i, AttName(colon), i + |ch|, AttName(colon));
  }

  lemma {:induction false} AttNames(enc: Encoding, s: seq<Byte>, i: nat, cs: seq<seq<Byte>>, colon: bool, tail: seq<Byte>)
    requires Ascii(enc) && Rest(s, i, Concat(cs) + tail) && forall k | 0 <= k < |cs| :: InName(enc, cs[k])
    ensures Rest(s, i + |Concat(cs)|, tail) && AttWay(enc, s, i, AttName(colon), i + |Concat(cs)|, AttName(colon))
    decreases |cs|
  {
    if cs == [] {
      assert Concat(cs) + tail == tail;
      AttWayIs(enc, s, i, AttName(colon), i, AttName(colon));
    } else {
      var j := i + |cs[0]|;
      ConcatFirst(cs, tail);
      AttNameChar(enc, s, i, cs[0], colon, Concat(cs[1..]) + tail);
      AttNames(enc, s, j, cs[1..], colon, tail);
      AttJoin(enc, s, i, AttName(colon), j, AttName(colon), i + |Concat(cs)|, AttName(colon));
    }
  }

  lemma AttColonStep(enc: Encoding, s: seq<Byte>, i: nat)
    requires Ascii(enc) && i < |s| && s[i] == 0x3A
    ensures AttWay(enc, s, i, AttName(false), i + 1, if enc.byteType(s[i]).Colon? then AttColon else AttName(false))
  {
    TypeOf(enc, s[i]);
    AttGo(enc, s, i, AttName(false), i + 1, if enc.byteType(s[i]).Colon? then AttColon else AttName(false));
  }

  /** A colon and the character behind it. */
  lemma AttColons(enc: Encoding, s: seq<Byte>, i: nat, ch: seq<Byte>, tail: seq<Byte>) returns (colon: bool)
    requires Ascii(enc) && StartsName(enc, ch) && Rest(s, i, [0x3A] + (ch + tail))
    ensures Rest(s, i + 1 + |ch|, tail) && AttWay(enc, s, i, AttName(false), i + 1 + |ch|, AttName(colon))
  {
    Past1(s, i, 0x3A, ch + tail);
    CharIs(enc, s, i + 1, ch, tail);
    StartIsIn(enc, ch);
    colon := enc.byteType(s[i]).Colon?;
    var next := if colon then AttColon else AttName(false);
    AttColonStep(enc, s, i);
    AttGo(enc, s, i + 1, next, i + 1 + |ch|, AttName(colon));
    AttJoin(enc, s, i, AttName(false), i + 1, next, i + 1 + |ch|, AttName(colon));
  }

  lemma AttPrefix(enc: Encoding, s: seq<Byte>, i: nat, p: seq<seq<Byte>>, ch: seq<Byte>, tail: seq<Byte>)
      returns (j: nat, colon: bool)
    requires Ascii(enc) && (forall k | 0 <= k < |p| :: InName(enc, p[k])) && StartsName(enc, ch)
    requires Rest(s, i, Concat(p) + ([0x3A] + (ch + tail)))
    ensures Rest(s, j, tail) && AttWay(enc, s, i, AttName(false), j, AttName(colon))
  {
    var k := i + |Concat(p)|;
    AttNames(enc, s, i, p, false, [0x3A] + (ch + tail));
    colon := AttColons(enc, s, k, ch, tail);
    j := k + 1 + |ch|;
    AttJoin(enc, s, i, AttName(false), k, AttName(false), j, AttName(colon));
  }

  lemma AttNameEnd(enc: Encoding, s: seq<Byte>, i: nat, n: Name, tail: seq<Byte>) returns (j: nat, colon: bool)
    requires Ascii(enc) && IsName(enc, n) && Rest(s, i, NameThen(n, tail))
    ensures Rest(s, j, tail) && AttWay(enc, s, i, AttName(false), j, AttName(colon))
  {
    colon := false;
    if n.prefix.Some? {
      var k;
      k, colon := AttPrefix(enc, s, i, n.prefix.value[1..], n.local[0], Concat(n.local[1..]) + tail);
      j := k + |Concat(n.local[1..])|;
      AttNames(enc, s, k, n.local[1..], colon, tail);
      AttJoin(enc, s, i, AttName(false), k, AttName(colon), j, AttName(colon));
    } else {
      j := i + |Concat(n.local[1..])|;
      AttNames(enc, s, i, n.local[1..], false, tail);
    }
  }

  /** The state behind white space. */
  function AttBehind(st: AttState): AttState
    requires !st.AttColon?
  {
    match st
    case AttName(_) => AttEquals
    case AttClosed => AttGap
    case _ => st
  }

  /** One byte of white space. */
  lemma AttWhite(enc: Encoding, s: seq<Byte>, i: nat, st: AttState)
    requires Ascii(enc) && i < |s| && White(s[i]) && !st.AttColon?
    ensures AttWay(enc, s, i, st, i + 1, AttBehind(st))
  {
    NoName(enc, s, i);
    TypeOf(enc, s[i]);
    AttGo(enc, s, i, st, i + 1, AttBehind(st));
  }

  /** White space. */
  lemma {:induction false} AttSpace(enc: Encoding, s: seq<Byte>, i: nat, w: seq<Byte>, st: AttState, tail: seq<Byte>)
    requires Ascii(enc) && AllWhite(w) && Rest(s, i, w + tail) && !st.AttColon?
    ensures Rest(s, i + |w|, tail) && AttWay(enc, s, i, st, i + |w|, if w == [] then st else AttBehind(st))
    decreases |w|
  {
    if w == [] {
      assert w + tail == tail;
      AttWayIs(enc, s, i, st, i, st);
    } else {
      var next := AttBehind(st);
      WhiteFirst(w, tail);
      Past1(s, i, w[0], w[1..] + tail);
      AttWhite(enc, s, i, st);
      AttSpace(enc, s, i + 1, w[1..], next, tail);
      assert AttBehind(next) == next;
      AttJoin(enc, s, i, st, i + 1, next, i + |w|, next);
    }
  }

  lemma AttEqual(enc: Encoding, s: seq<Byte>, i: nat, st: AttState, tail: seq<Byte>)
    requires Ascii(enc) && Rest(s, i, [0x3D] + tail) && (st.AttName? || st.AttEquals?)
    ensures Rest(s, i + 1, tail) && AttWay(enc, s, i, st, i + 1, AttOpen)
  {
    Past1(s, i, 0x3D, tail);
    NoName(enc, s, i);
    TypeOf(enc, s[i]);
    AttGo(enc, s, i, st, i + 1, AttOpen);
  }

  /** From behind a name to behind the equals sign. */
  lemma AttToEquals(enc: Encoding, s: seq<Byte>, i: nat, w: seq<Byte>, colon: bool, tail: seq<Byte>)
    requires Ascii(enc) && AllWhite(w) && Rest(s, i, w + ([0x3D] + tail))
    ensures Rest(s, i + |w| + 1, tail) && AttWay(enc, s, i, AttName(colon), i + |w| + 1, AttOpen)
  {
    var j, st := i + |w|, if w == [] then AttName(colon) else AttEquals;
    AttSpace(enc, s, i, w, AttName(colon), [0x3D] + tail);
    AttEqual(enc, s, j, st, tail);
    AttJoin(enc, s, i, AttName(colon), j, st, j + 1, AttOpen);
  }

  lemma LiteralStep(enc: Encoding, s: seq<Byte>, i: nat, ch: seq<Byte>, quote: Byte, tail: seq<Byte>)
    requires Ascii(enc) && IsPiece(enc, Literal(ch), quote) && (quote == 0x22 || quote == 0x27) && Rest(s, i, ch + tail)
    ensures i < |s| && Rest(s, i + |ch|, tail)
    ensures ValueStep(enc, s, i, enc.byteType(quote)) == Go(i + |ch|, AttOpen)
  {
    CharIs(enc, s, i, ch, tail);
    OneByte(enc, ch, quote);
    OneByte(enc, ch, 0x3C);
    OneByte(enc, ch, 0x26);
    TypeOf(enc, quote);
    TypeOf(enc, s[i]);
  }

  /** The token of a reference inside a longer text. */
  lemma RefInside(enc: Encoding, s: seq<Byte>, i: nat, r: Ref, tail: seq<Byte>)
    requires Ascii(enc) && IsRef(enc, r) && Rest(s, i, PrintRef(r) + tail)
    ensures i < |s| && s[i] == 0x26 && Rest(s, i + |PrintRef(r)|, tail)
    ensures RefRun(enc, s, i + 1, RefFirst) == Tok(RefKind(r), i + |PrintRef(r)|)
  {
    Past(s, i, PrintRef(r), tail);
    var u := s[..i + |PrintRef(r)|];
    assert u[i..] == PrintRef(r);
    Assoc([0x26], RefBody(r), [0x3B]);
    RestIs(u, i, [0x26] + (RefBody(r) + [0x3B]));
    Past1(u, i, 0x26, RefBody(r) + [0x3B]);
    RefToken(enc, u, i + 1, r);
    RefStable(enc, u, s, i + 1, RefFirst);
  }

  /** One part of a value. */
  lemma PieceStep(enc: Encoding, s: seq<Byte>, i: nat, p: Piece, quote: Byte, tail: seq<Byte>)
    requires Ascii(enc) && IsPiece(enc, p, quote) && (quote == 0x22 || quote == 0x27) && Rest(s, i, PrintPiece(p) + tail)
    ensures i < |s| && Rest(s, i + |PrintPiece(p)|, tail)
    ensures ValueStep(enc, s, i, enc.byteType(quote)) == Go(i + |PrintPiece(p)|, AttOpen)
  {
    if p.Literal? {
      LiteralStep(enc, s, i, p.ch, quote, tail);
    } else {
      RefInside(enc, s, i, p.r, tail);
      TypeOf(enc, quote);
      TypeOf(enc, s[i]);
    }
  }

  predicate ArePieces(enc: Encoding, ps: seq<Piece>, quote: Byte) { forall k | 0 <= k < |ps| :: IsPiece(enc, ps[k], quote) }

  lemma PiecesFirst(enc: Encoding, ps: seq<Piece>, quote: Byte, tail: seq<Byte>)
    requires ArePieces(enc, ps, quote) && ps != []
    ensures IsPiece(enc, ps[0], quote) == true && ArePieces(enc, ps[1..], quote)
    ensures PrintPieces(ps) + tail == PrintPiece(ps[0]) + (PrintPieces(ps[1..]) + tail)
  {
    Assoc(PrintPiece(ps[0]), PrintPieces(ps[1..]), tail);
  }

  /** The value that is read from `i` on is closed in front of `j`. */
  ghost predicate ClosedAt(enc: Encoding, s: seq<Byte>, i: nat, quote: Byte, j: nat) {
    i <= |s| &&
    forall k {:trigger WayAsked(k, s, i, j)} ::
      WayAsked(k, s, i, j) ==> ValueRun(enc, s, i, enc.byteType(quote)) == Go(j, AttClosed)
  }

  lemma ValueStop(enc: Encoding, s: seq<Byte>, i: nat, quote: Byte, tail: seq<Byte>)
    requires Rest(s, i, [quote] + tail)
    ensures Rest(s, i + 1, tail) && ClosedAt(enc, s, i, quote, i + 1)
  {
    Past1(s, i, quote, tail);
  }

  /** The first part of a value, and what is behind it. */
  lemma ValueNext(enc: Encoding, s: seq<Byte>, i: nat, ps: seq<Piece>, quote: Byte, tail: seq<Byte>) returns (k: nat)
    requires Ascii(enc) && ArePieces(enc, ps, quote) && (quote == 0x22 || quote == 0x27) && ps != []
    requires Rest(s, i, PrintPieces(ps) + tail)
    ensures Rest(s, k, PrintPieces(ps[1..]) + tail) && ArePieces(enc, ps[1..], quote) == true
    ensures ValueRun(enc, s, i, enc.byteType(quote)) == ValueRun(enc, s, k, enc.byteType(quote))
  {
    PiecesFirst(enc, ps, quote, tail);
    PieceStep(enc, s, i, ps[0], quote, PrintPieces(ps[1..]) + tail);
    k := i + |PrintPiece(ps[0])|;
  }

  lemma ClosedBefore(enc: Encoding, s: seq<Byte>, i: nat, k: nat, quote: Byte, j: nat)
    requires i <= |s| && ClosedAt(enc, s, k, quote, j)
    requires ValueRun(enc, s, i, enc.byteType(quote)) == ValueRun(enc, s, k, enc.byteType(quote))
    ensures ClosedAt(enc, s, i, quote, j)
  {
    assert WayAsked(0, s, k, j);
  }

  lemma {:induction false} ValueClosed(enc: Encoding, s: seq<Byte>, i: nat, ps: seq<Piece>, quote: Byte, tail: seq<Byte>)
      returns (j: nat)
    requires Ascii(enc) && ArePieces(enc, ps, quote) == true && (quote == 0x22 || quote == 0x27)
    requires Rest(s, i, PrintPieces(ps) + ([quote] + tail))
    ensures Rest(s, j, tail) && ClosedAt(enc, s, i, quote, j)
    decreases |ps|
  {
    if ps == [] {
      assert PrintPieces(ps) + ([quote] + tail) == [quote] + tail;
      ValueStop(enc, s, i, quote, tail);
      j := i + 1;
    } else {
      var k := ValueNext(enc, s, i, ps, quote, [quote] + tail);
      j := ValueClosed(enc, s, k, ps[1..], quote, tail);
      ClosedBefore(enc, s, i, k, quote, j);
    }
  }

  lemma ValueEnd(enc: Encoding, s: seq<Byte>, i: nat, ps: seq<Piece>, quote: Byte, tail: seq<Byte>) returns (j: nat)
    requires Ascii(enc) && ArePieces(enc, ps, quote) && (quote == 0x22 || quote == 0x27)
    requires Rest(s, i, PrintPieces(ps) + ([quote] + tail))
    ensures Rest(s, j, tail) && ValueRun(enc, s, i, enc.byteType(quote)) == Go(j, AttClosed)
  {
    j := ValueClosed(enc, s, i, ps, quote, tail);
    assert WayAsked(0, s, i, j);
  }

  /** A value in its quotes. */
  lemma QuotedValue(enc: Encoding, s: seq<Byte>, i: nat, ps: seq<Piece>, quote: Byte, tail: seq<Byte>) returns (j: nat)
    requires Ascii(enc) && ArePieces(enc, ps, quote) && (quote == 0x22 || quote == 0x27)
    requires Rest(s, i, [quote] + (PrintPieces(ps) + ([quote] + tail)))
    ensures Rest(s, j, tail) && AttWay(enc, s, i, AttOpen, j, AttClosed)
  {
    Past1(s, i, quote, PrintPieces(ps) + ([quote] + tail));
    TypeOf(enc, quote);
    j := ValueEnd(enc, s, i + 1, ps, quote, tail);
    AttGo(enc, s, i, AttOpen, j, AttClosed);
  }

  /** From behind the equals sign to behind the closing quote. */
  lemma AttValueEnd(enc: Encoding, s: seq<Byte>, i: nat, w: seq<Byte>, ps: seq<Piece>, quote: Byte, tail: seq<Byte>)
      returns (j: nat)
    requires Ascii(enc) && AllWhite(w) && ArePieces(enc, ps, quote) && (quote == 0x22 || quote == 0x27)
    requires Rest(s, i, w + ([quote] + (PrintPieces(ps) + ([quote] + tail))))
    ensures Rest(s, j, tail) && AttWay(enc, s, i, AttOpen, j, AttClosed)
  {
    AttSpace(enc, s, i, w, AttOpen, [quote] + (PrintPieces(ps) + ([quote] + tail)));
    j := QuotedValue(enc, s, i + |w|, ps, quote, tail);
    AttJoin(enc, s, i, AttOpen, i + |w|, AttOpen, j, AttClosed);
  }

  /** An attribute behind the first character of its name, and then `tail`. */
  function AttThen(a: Att, tail: seq<Byte>): seq<Byte>
    requires a.name.local != [] && (a.name.prefix.Some? ==> a.name.prefix.value != [])
  {
    NameThen(a.name, a.before + ([0x3D] + (a.after + ([a.quote] + (PrintPieces(a.value) + ([a.quote] + tail))))))
  }

  lemma AttParts(a: Att, tail: seq<Byte>)
    requires a.name.local != [] && (a.name.prefix.Some? ==> a.name.prefix.value != [])
    ensures PrintAtt(a) + tail == a.gap + (FirstChar(a.name) + AttThen(a, tail))
  {
    Group8(a.gap, PrintName(a.name), a.before, [0x3D], a.after, [a.quote], PrintPieces(a.value), [a.quote], tail);
    NameParts(a.name, a.before + ([0x3D] + (a.after + ([a.quote] + (PrintPieces(a.value) + ([a.quote] + tail))))));
  }

  lemma Group8(a: seq<Byte>, b: seq<Byte>, c: seq<Byte>, d: seq<Byte>, e: seq<Byte>, f: seq<Byte>, g: seq<Byte>,
               h: seq<Byte>, tail: seq<Byte>)
    ensures a + b + c + d + e + f + g + h + tail == a + (b + (c + (d + (e + (f + (g + (h + tail)))))))
  {
    Assoc(a + b + c + d + e + f + g, h, tail);
    Assoc(a + b + c + d + e + f, g, h + tail);
    Group6(a, b, c, d, e, f, g + (h + tail));
  }

  lemma Group6(a: seq<Byte>, b: seq<Byte>, c: seq<Byte>, d: seq<Byte>, e: seq<Byte>, f: seq<Byte>, tail: seq<Byte>)
    ensures a + b + c + d + e + f + tail == a + (b + (c + (d + (e + (f + tail)))))
  {
    Assoc(a + b + c + d + e, f, tail);
    Group4(a, b, c, d, e + (f + tail));
    Assoc(a + b + c + d, e, f + tail);
  }

  lemma Group4(a: seq<Byte>, b: seq<Byte>, c: seq<Byte>, d: seq<Byte>, tail: seq<Byte>)
    ensures a + b + c + d + tail == a + (b + (c + (d + tail)))
  {
    Assoc(a + b + c, d, tail);
    Assoc(a + b, c, d + tail);
    Assoc(a, b, c + (d + tail));
  }

  lemma AttEnd(enc: Encoding, s: seq<Byte>, i: nat, a: Att, tail: seq<Byte>) returns (j: nat)
    requires Ascii(enc) && IsAtt(enc, a) && Rest(s, i, AttThen(a, tail))
    ensures Rest(s, j, tail) && AttWay(enc, s, i, AttName(false), j, AttClosed)
  {
    var value := a.after + ([a.quote] + (PrintPieces(a.value) + ([a.quote] + tail)));
    var k, colon := AttNameEnd(enc, s, i, a.name, a.before + ([0x3D] + value));
    var l := k + |a.before| + 1;
    AttToEquals(enc, s, k, a.before, colon, value);
    j := AttValueEnd(enc, s, l, a.after, a.value, a.quote, tail);
    AttJoin(enc, s, i, AttName(false), k, AttName(colon), l, AttOpen);
    AttJoin(enc, s, i, AttName(false), l, AttOpen, j, AttClosed);
  }

  function Close(empty: bool): seq<Byte> { if empty then [0x2F, 0x3E] else [0x3E] }

  lemma CloseFirst(s: seq<Byte>, i: nat, empty: bool)
    requires Rest(s, i, Close(empty))
    ensures if empty then i + 2 == |s| && s[i] == 0x2F && s[i + 1] == 0x3E else i + 1 == |s| && s[i] == 0x3E
  {
    RestIs(s, i, Close(empty));
    assert s[i..][0] == s[i];
    if empty {
      assert s[i..][1] == s[i + 1];
    }
  }

  lemma AttsCloseAt(enc: Encoding, s: seq<Byte>, i: nat, st: AttState, empty: bool)
    requires Ascii(enc) && Rest(s, i, Close(empty)) && (st.AttClosed? || st.AttGap?)
    ensures AttRun(enc, s, i, st) == Tok(if empty then EmptyWithAtts else StartWithAtts, |s|)
  {
    CloseFirst(s, i, empty);
    NoName(enc, s, i);
    TypeOf(enc, s[i]);
  }

  /** The end of a tag with attributes. */
  lemma AttsClose(enc: Encoding, s: seq<Byte>, i: nat, w: seq<Byte>, empty: bool)
    requires Ascii(enc) && AllWhite(w) && Rest(s, i, w + Close(empty))
    ensures AttRun(enc, s, i, AttClosed) == Tok(if empty then EmptyWithAtts else StartWithAtts, |s|)
  {
    var st := if w == [] then AttClosed else AttGap;
    AttSpace(enc, s, i, w, AttClosed, Close(empty));
    AttsCloseAt(enc, s, i + |w|, st, empty);
    AttWayIs(enc, s, i, AttClosed, i + |w|, st);
  }

  /** The first character of a further name. */
  lemma AttGapName(enc: Encoding, s: seq<Byte>, i: nat, gap: seq<Byte>, ch: seq<Byte>, tail: seq<Byte>)
    requires Ascii(enc) && AllWhite(gap) && gap != [] && StartsName(enc, ch) && Rest(s, i, gap + (ch + tail))
    ensures var j := i + |gap| + |ch|; Rest(s, j, tail) && AttWay(enc, s, i, AttClosed, j, AttName(false))
  {
    var k := i + |gap|;
    AttSpace(enc, s, i, gap, AttClosed, ch + tail);
    CharIs(enc, s, k, ch, tail);
    AttGo(enc, s, k, AttGap, k + |ch|, AttName(false));
    AttJoin(enc, s, i, AttClosed, k, AttGap, k + |ch|, AttName(false));
  }

  /** A further attribute. */
  lemma AttNext(enc: Encoding, s: seq<Byte>, i: nat, a: Att, tail: seq<Byte>) returns (j: nat)
    requires Ascii(enc) && IsAtt(enc, a) && Rest(s, i, PrintAtt(a) + tail)
    ensures Rest(s, j, tail) && AttWay(enc, s, i, AttClosed, j, AttClosed)
  {
    var ch, k := FirstChar(a.name), i + |a.gap| + |FirstChar(a.name)|;
    AttParts(a, tail);
    AttGapName(enc, s, i, a.gap, ch, AttThen(a, tail));
    j := AttEnd(enc, s, k, a, tail);
    AttJoin(enc, s, i, AttClosed, k, AttName(false), j, AttClosed);
  }

  predicate AreAtts(enc: Encoding, atts: seq<Att>) { forall k | 0 <= k < |atts| :: IsAtt(enc, atts[k]) }

  lemma AttsFirst(enc: Encoding, atts: seq<Att>, tail: seq<Byte>)
    requires AreAtts(enc, atts) && atts != []
    ensures IsAtt(enc, atts[0]) == true && AreAtts(enc, atts[1..])
    ensures PrintAtts(atts) + tail == PrintAtt(atts[0]) + (PrintAtts(atts[1..]) + tail)
  {
    Assoc(PrintAtt(atts[0]), PrintAtts(atts[1..]), tail);
  }

  /** All attributes behind the first, and the end of the tag. */
  lemma {:induction false} AttsToken(enc: Encoding, s: seq<Byte>, i: nat, atts: seq<Att>, w: seq<Byte>, empty: bool)
    requires Ascii(enc) && AllWhite(w) && AreAtts(enc, atts) && Rest(s, i, PrintAtts(atts) + (w + Close(empty)))
    ensures AttRun(enc, s, i, AttClosed) == Tok(if empty then EmptyWithAtts else StartWithAtts, |s|)
    decreases |atts|
  {
    if atts == [] {
      assert PrintAtts(atts) + (w + Close(empty)) == w + Close(empty);
      AttsClose(enc, s, i, w, empty);
    } else {
      AttsFirst(enc, atts, w + Close(empty));
      var j := AttNext(enc, s, i, atts[0], PrintAtts(atts[1..]) + (w + Close(empty)));
      AttsToken(enc, s, j, atts[1..], w, empty);
      AttWayIs(enc, s, i, AttClosed, j, AttClosed);
    }
  }

  // ----- start tags

  /** The run from `i` in `st` goes on at `j` in `next`. */
  ghost predicate TagWay(enc: Encoding, s: seq<Byte>, i: nat, st: TagState, j: nat, next: TagState) {
    i <= |s| && j <= |s| &&
    forall k {:trigger WayAsked(k, s, i, j)} :: WayAsked(k, s, i, j) ==> TagRun(enc, s, i, st) == TagRun(enc, s, j, next)
  }

  lemma TagWayIs(enc: Encoding, s: seq<Byte>, i: nat, st: TagState, j: nat, next: TagState)
    requires i <= |s| && j <= |s|
    ensures TagWay(enc, s, i, st, j, next) <==> TagRun(enc, s, i, st) == TagRun(enc, s, j, next)
  {
    assert WayAsked(0, s, i, j);
  }

  lemma TagJoin(enc: Encoding, s: seq<Byte>, i: nat, st: TagState, j: nat, next: TagState, k: nat, last: TagState)
    requires TagWay(enc, s, i, st, j, next) && TagWay(enc, s, j, next, k, last)
    ensures TagWay(enc, s, i, st, k, last)
  {
    TagWayIs(enc, s, i, st, j, next);
    TagWayIs(enc, s, j, next, k, last);
    TagWayIs(enc, s, i, st, k, last);
  }

  lemma TagGo(enc: Encoding, s: seq<Byte>, i: nat, st: TagState, j: nat, next: TagState)
    requires i < |s| && !st.TagAtts? && TagStep(enc, s, i, st) == Go(j, next)
    ensures TagWay(enc, s, i, st, j, next)
  {
    TagWayIs(enc, s, i, st, j, next);
  }

  lemma TagNameChar(enc: Encoding, s: seq<Byte>, i: nat, ch: seq<Byte>, colon: bool, tail: seq<Byte>)
    requires Ascii(enc) && InName(enc, ch) && Rest(s, i, ch + tail)
    ensures Rest(s, i + |ch|, tail) && TagWay(enc, s, i, TagName(colon), i + |ch|, TagName(colon))
  {
    CharIs(enc, s, i, ch, tail);
    TagGo(enc, s, i, TagName(colon), i + |ch|, TagName(colon));
  }

  lemma {:induction false} TagNames(enc: Encoding, s: seq<Byte>, i: nat, cs: seq<seq<Byte>>, colon: bool, tail: seq<Byte>)
    requires Ascii(enc) && Rest(s, i, Concat(cs) + tail) && forall k | 0 <= k < |cs| :: InName(enc, cs[k])
    ensures Rest(s, i + |Concat(cs)|, tail) && TagWay(enc, s, i, TagName(colon), i + |Concat(cs)|, TagName(colon))
    decreases |cs|
  {
    if cs == [] {
      assert Concat(cs) + tail == tail;
      TagWayIs(enc, s, i, TagName(colon), i, TagName(colon));
    } else {
      var j := i + |cs[0]|;
      ConcatFirst(cs, tail);
      TagNameChar(enc, s, i, cs[0], colon, Concat(cs[1..]) + tail);
      TagNames(enc, s, j, cs[1..], colon, tail);
      TagJoin(enc, s, i, TagName(colon), j, TagName(colon), i + |Concat(cs)|, TagName(colon));
    }
  }

  lemma TagColonStep(enc: Encoding, s: seq<Byte>, i: nat)
    requires Ascii(enc) && i < |s| && s[i] == 0x3A
    ensures TagWay(enc, s, i, TagName(false), i + 1, if enc.byteType(s[i]).Colon? then TagColon else TagName(false))
  {
    TypeOf(enc, s[i]);
    TagGo(enc, s, i, TagName(false), i + 1, if enc.byteType(s[i]).Colon? then TagColon else TagName(false));
  }

  /** A colon and the character behind it. */
  lemma TagColons(enc: Encoding, s: seq<Byte>, i: nat, ch: seq<Byte>, tail: seq<Byte>) returns (colon: bool)
    requires Ascii(enc) && StartsName(enc, ch) && Rest(s, i, [0x3A] + (ch + tail))
    ensures Rest(s, i + 1 + |ch|, tail) && TagWay(enc, s, i, TagName(false), i + 1 + |ch|, TagName(colon))
  {
    Past1(s, i, 0x3A, ch + tail);
    CharIs(enc, s, i + 1, ch, tail);
    StartIsIn(enc, ch);
    colon := enc.byteType(s[i]).Colon?;
    var next := if colon then TagColon else TagName(false);
    TagColonStep(enc, s, i);
    TagGo(enc, s, i + 1, next, i + 1 + |ch|, TagName(colon));
    TagJoin(enc, s, i, TagName(false), i + 1, next, i + 1 + |ch|, TagName(colon));
  }

  lemma TagPrefix(enc: Encoding, s: seq<Byte>, i: nat, p: seq<seq<Byte>>, ch: seq<Byte>, tail: seq<Byte>)
      returns (j: nat, colon: bool)
    requires Ascii(enc) && (forall k | 0 <= k < |p| :: InName(enc, p[k])) && StartsName(enc, ch)
    requires Rest(s, i, Concat(p) + ([0x3A] + (ch + tail)))
    ensures Rest(s, j, tail) && TagWay(enc, s, i, TagName(false), j, TagName(colon))
  {
    var k := i + |Concat(p)|;
    TagNames(enc, s, i, p, false, [0x3A] + (ch + tail));
    colon := TagColons(enc, s, k, ch, tail);
    j := k + 1 + |ch|;
    TagJoin(enc, s, i, TagName(false), k, TagName(false), j, TagName(colon));
  }

  lemma TagNameEnd(enc: Encoding, s: seq<Byte>, i: nat, n: Name, tail: seq<Byte>) returns (j: nat, colon: bool)
    requires Ascii(enc) && IsName(enc, n) && Rest(s, i, NameThen(n, tail))
    ensures Rest(s, j, tail) && TagWay(enc, s, i, TagName(false), j, TagName(colon))
  {
    colon := false;
    if n.prefix.Some? {
      var k;
      k, colon := TagPrefix(enc, s, i, n.prefix.value[1..], n.local[0], Concat(n.local[1..]) + tail);
      j := k + |Concat(n.local[1..])|;
      TagNames(enc, s, k, n.local[1..], colon, tail);
      TagJoin(enc, s, i, TagName(false), k, TagName(colon), j, TagName(colon));
    } else {
      j := i + |Concat(n.local[1..])|;
      TagNames(enc, s, i, n.local[1..], false, tail);
    }
  }

  lemma TagWhite(enc: Encoding, s: seq<Byte>, i: nat, st: TagState)
    requires Ascii(enc) && i < |s| && White(s[i]) && (st.TagName? || st.TagGap?)
    ensures TagWay(enc, s, i, st, i + 1, TagGap)
  {
    NoName(enc, s, i);
    TypeOf(enc, s[i]);
    TagGo(enc, s, i, st, i + 1, TagGap);
  }

  lemma {:induction false} TagSpace(enc: Encoding, s: seq<Byte>, i: nat, w: seq<Byte>, st: TagState, tail: seq<Byte>)
    requires Ascii(enc) && AllWhite(w) && Rest(s, i, w + tail) && (st.TagName? || st.TagGap?)
    ensures Rest(s, i + |w|, tail) && TagWay(enc, s, i, st, i + |w|, if w == [] then st else TagGap)
    decreases |w|
  {
    if w == [] {
      assert w + tail == tail;
      TagWayIs(enc, s, i, st, i, st);
    } else {
      WhiteFirst(w, tail);
      Past1(s, i, w[0], w[1..] + tail);
      TagWhite(enc, s, i, st);
      TagSpace(enc, s, i + 1, w[1..], TagGap, tail);
      TagJoin(enc, s, i, st, i + 1, TagGap, i + |w|, TagGap);
    }
  }

  lemma TagCloseAt(enc: Encoding, s: seq<Byte>, i: nat, st: TagState, empty: bool)
    requires Ascii(enc) && Rest(s, i, Close(empty)) && (st.TagName? || st.TagGap?)
    ensures TagRun(enc, s, i, st) == Tok(if empty then EmptyNoAtts else StartNoAtts, |s|)
  {
    CloseFirst(s, i, empty);
    NoName(enc, s, i);
    TypeOf(enc, s[i]);
  }

  /** The end of a tag without attributes. */
  lemma TagClose(enc: Encoding, s: seq<Byte>, i: nat, w: seq<Byte>, colon: bool, empty: bool)
    requires Ascii(enc) && AllWhite(w) && Rest(s, i, w + Close(empty))
    ensures TagRun(enc, s, i, TagName(colon)) == Tok(if empty then EmptyNoAtts else StartNoAtts, |s|)
  {
    var st := if w == [] then TagName(colon) else TagGap;
    TagSpace(enc, s, i, w, TagName(colon), Close(empty));
    TagCloseAt(enc, s, i + |w|, st, empty);
    TagWayIs(enc, s, i, TagName(colon), i + |w|, st);
  }

  function TagKind(t: Tag, empty: bool): Kind {
    if t.atts == [] then (if empty then EmptyNoAtts else StartNoAtts)
    else if empty then EmptyWithAtts else StartWithAtts
  }

  lemma TagGapName(enc: Encoding, s: seq<Byte>, i: nat, gap: seq<Byte>, ch: seq<Byte>, colon: bool, tail: seq<Byte>)
    requires Ascii(enc) && AllWhite(gap) && gap != [] && StartsName(enc, ch) && Rest(s, i, gap + (ch + tail))
    ensures var j := i + |gap| + |ch|; Rest(s, j, tail) && TagWay(enc, s, i, TagName(colon), j, TagAtts)
  {
    var k := i + |gap|;
    TagSpace(enc, s, i, gap, TagName(colon), ch + tail);
    CharIs(enc, s, k, ch, tail);
    TagGo(enc, s, k, TagGap, k + |ch|, TagAtts);
    TagJoin(enc, s, i, TagName(colon), k, TagGap, k + |ch|, TagAtts);
  }

  /** The first attribute. */
  lemma FirstAtt(enc: Encoding, s: seq<Byte>, i: nat, a: Att, colon: bool, tail: seq<Byte>) returns (k: nat, j: nat)
    requires Ascii(enc) && IsAtt(enc, a) && Rest(s, i, PrintAtt(a) + tail)
    ensures Rest(s, j, tail) && TagWay(enc, s, i, TagName(colon), k, TagAtts)
    ensures AttWay(enc, s, k, AttName(false), j, AttClosed)
  {
    AttParts(a, tail);
    TagGapName(enc, s, i, a.gap, FirstChar(a.name), colon, AttThen(a, tail));
    k := i + |a.gap| + |FirstChar(a.name)|;
    j := AttEnd(enc, s, k, a, tail);
  }

  /** A tag with attributes behind its name. */
  lemma TagAttsToken(enc: Encoding, s: seq<Byte>, i: nat, t: Tag, colon: bool, empty: bool)
    requires Ascii(enc) && IsTag(enc, t) && t.atts != []
    requires Rest(s, i, PrintAtts(t.atts) + (t.space + Close(empty)))
    ensures TagRun(enc, s, i, TagName(colon)) == Tok(TagKind(t, empty), |s|)
  {
    var end := t.space + Close(empty);
    AttsFirst(enc, t.atts, end);
    var k, j := FirstAtt(enc, s, i, t.atts[0], colon, PrintAtts(t.atts[1..]) + end);
    AttsToken(enc, s, j, t.atts[1..], t.space, empty);
    AttWayIs(enc, s, k, AttName(false), j, AttClosed);
    TagWayIs(enc, s, i, TagName(colon), k, TagAtts);
  }

  /** A tag behind the first character of its name. */
  lemma TagToken(enc: Encoding, s: seq<Byte>, i: nat, t: Tag, empty: bool)
    requires Ascii(enc) && IsTag(enc, t)
    requires Rest(s, i, NameThen(t.name, PrintAtts(t.atts) + (t.space + Close(empty))))
    ensures TagRun(enc, s, i, TagName(false)) == Tok(TagKind(t, empty), |s|)
  {
    var end := t.space + Close(empty);
    var j, colon := TagNameEnd(enc, s, i, t.name, PrintAtts(t.atts) + end);
    if t.atts == [] {
      assert PrintAtts(t.atts) + end == end;
      TagClose(enc, s, j, t.space, colon, empty);
    } else {
      TagAttsToken(enc, s, j, t, colon, empty);
    }
    TagWayIs(enc, s, i, TagName(false), j, TagName(colon));
  }

  lemma TagParts(t: Tag, empty: bool)
    requires t.name.local != [] && (t.name.prefix.Some? ==> t.name.prefix.value != [])
    ensures PrintTag(t, empty) ==
            [0x3C] + (FirstChar(t.name) + NameThen(t.name, PrintAtts(t.atts) + (t.space + Close(empty))))
  {
    NameParts(t.name, PrintAtts(t.atts) + (t.space + Close(empty)));
    Group4([0x3C], PrintName(t.name), PrintAtts(t.atts), t.space, Close(empty));
  }

  lemma TagFirst(enc: Encoding, s: seq<Byte>, ch: seq<Byte>, tail: seq<Byte>)
    requires Ascii(enc) && StartsName(enc, ch) && s == [0x3C] + (ch + tail)
    ensures Rest(s, 1 + |ch|, tail) && ContentTok(enc, s) == TagRun(enc, s, 1 + |ch|, TagName(false))
  {
    Whole(s);
    Past1(s, 0, 0x3C, ch + tail);
    TypeOf(enc, s[0]);
    CharIs(enc, s, 1, ch, tail);
  }

  /** A printed start or empty-element tag is one token, with attributes or without. */
  lemma PrintedTag(enc: Encoding, t: Tag, empty: bool)
    requires Ascii(enc) && IsTag(enc, t)
    ensures ContentTok(enc, PrintTag(t, empty)) == Tok(TagKind(t, empty), |PrintTag(t, empty)|)
  {
    var s, ch := PrintTag(t, empty), FirstChar(t.name);
    TagParts(t, empty);
    TagFirst(enc, s, ch, NameThen(t.name, PrintAtts(t.atts) + (t.space + Close(empty))));
    TagToken(enc, s, 1 + |ch|, t, empty);
  }

  // ----- end tags

  /** The run from `i` in `st` goes on at `j` in `next`. */
  ghost predicate EndWay(enc: Encoding, s: seq<Byte>, i: nat, st: EndState, j: nat, next: EndState) {
    i <= |s| && j <= |s| &&
    forall k {:trigger WayAsked(k, s, i, j)} :: WayAsked(k, s, i, j) ==> EndRun(enc, s, i, st) == EndRun(enc, s, j, next)
  }

  lemma EndWayIs(enc: Encoding, s: seq<Byte>, i: nat, st: EndState, j: nat, next: EndState)
    requires i <= |s| && j <= |s|
    ensures EndWay(enc, s, i, st, j, next) <==> EndRun(enc, s, i, st) == EndRun(enc, s, j, next)
  {
    assert WayAsked(0, s, i, j);
  }

  lemma EndJoin(enc: Encoding, s: seq<Byte>, i: nat, st: EndState, j: nat, next: EndState, k: nat, last: EndState)
    requires EndWay(enc, s, i, st, j, next) && EndWay(enc, s, j, next, k, last)
    ensures EndWay(enc, s, i, st, k, last)
  {
    EndWayIs(enc, s, i, st, j, next);
    EndWayIs(enc, s, j, next, k, last);
    EndWayIs(enc, s, i, st, k, last);
  }

  lemma EndGo(enc: Encoding, s: seq<Byte>, i: nat, st: EndState, j: nat, next: EndState)
    requires i < |s| && EndStep(enc, s, i, st) == Go(j, next)
    ensures EndWay(enc, s, i, st, j, next)
  {
    EndWayIs(enc, s, i, st, j, next);
  }

  lemma EndNameChar(enc: Encoding, s: seq<Byte>, i: nat, ch: seq<Byte>, tail: seq<Byte>)
    requires Ascii(enc) && InName(enc, ch) && Rest(s, i, ch + tail)
    ensures Rest(s, i + |ch|, tail) && EndWay(enc, s, i, EndName, i + |ch|, EndName)
  {
    CharIs(enc, s, i, ch, tail);
    EndGo(enc, s, i, EndName, i + |ch|, EndName);
  }

  lemma {:induction false} EndNames(enc: Encoding, s: seq<Byte>, i: nat, cs: seq<seq<Byte>>, tail: seq<Byte>)
    requires Ascii(enc) && Rest(s, i, Concat(cs) + tail) && forall k | 0 <= k < |cs| :: InName(enc, cs[k])
    ensures Rest(s, i + |Concat(cs)|, tail) && EndWay(enc, s, i, EndName, i + |Concat(cs)|, EndName)
    decreases |cs|
  {
    if cs == [] {
      assert Concat(cs) + tail == tail;
      EndWayIs(enc, s, i, EndName, i, EndName);
    } else {
      var j := i + |cs[0]|;
      ConcatFirst(cs, tail);
      EndNameChar(enc, s, i, cs[0], Concat(cs[1..]) + tail);
      EndNames(enc, s, j, cs[1..], tail);
      EndJoin(enc, s, i, EndName, j, EndName, i + |Concat(cs)|, EndName);
    }
  }

  lemma EndColons(enc: Encoding, s: seq<Byte>, i: nat, ch: seq<Byte>, tail: seq<Byte>)
    requires Ascii(enc) && StartsName(enc, ch) && Rest(s, i, [0x3A] + (ch + tail))
    ensures Rest(s, i + 1 + |ch|, tail) && EndWay(enc, s, i, EndName, i + 1 + |ch|, EndName)
  {
    Past1(s, i, 0x3A, ch + tail);
    CharIs(enc, s, i + 1, ch, tail);
    StartIsIn(enc, ch);
    TypeOf(enc, s[i]);
    EndGo(enc, s, i, EndName, i + 1, EndName);
    EndGo(enc, s, i + 1, EndName, i + 1 + |ch|, EndName);
    EndJoin(enc, s, i, EndName, i + 1, EndName, i + 1 + |ch|, EndName);
  }

  lemma EndPrefix(enc: Encoding, s: seq<Byte>, i: nat, p: seq<seq<Byte>>, ch: seq<Byte>, tail: seq<Byte>) returns (j: nat)
    requires Ascii(enc) && (forall k | 0 <= k < |p| :: InName(enc, p[k])) && StartsName(enc, ch)
    requires Rest(s, i, Concat(p) + ([0x3A] + (ch + tail)))
    ensures Rest(s, j, tail) && EndWay(enc, s, i, EndName, j, EndName)
  {
    var k := i + |Concat(p)|;
    EndNames(enc, s, i, p, [0x3A] + (ch + tail));
    EndColons(enc, s, k, ch, tail);
    j := k + 1 + |ch|;
    EndJoin(enc, s, i, EndName, k, EndName, j, EndName);
  }

  lemma EndNameEnd(enc: Encoding, s: seq<Byte>, i: nat, n: Name, tail: seq<Byte>) returns (j: nat)
    requires Ascii(enc) && IsName(enc, n) && Rest(s, i, NameThen(n, tail))
    ensures Rest(s, j, tail) && EndWay(enc, s, i, EndName, j, EndName)
  {
    if n.prefix.Some? {
      var k := EndPrefix(enc, s, i, n.prefix.value[1..], n.local[0], Concat(n.local[1..]) + tail);
      j := k + |Concat(n.local[1..])|;
      EndNames(enc, s, k, n.local[1..], tail);
      EndJoin(enc, s, i, EndName, k, EndName, j, EndName);
    } else {
      j := i + |Concat(n.local[1..])|;
      EndNames(enc, s, i, n.local[1..], tail);
    }
  }

  lemma EndCloseAt(enc: Encoding, s: seq<Byte>, i: nat, st: EndState)
    requires Ascii(enc) && Rest(s, i, [0x3E]) && !st.EndFirst?
    ensures EndRun(enc, s, i, st) == Tok(EndTag, |s|)
  {
    assert [0x3E] == Close(false);
    CloseFirst(s, i, false);
    NoName(enc, s, i);
    TypeOf(enc, s[i]);
  }

  lemma {:induction false} EndToken(enc: Encoding, s: seq<Byte>, i: nat, w: seq<Byte>, st: EndState)
    requires Ascii(enc) && AllWhite(w) && Rest(s, i, w + [0x3E]) && !st.EndFirst?
    ensures EndRun(enc, s, i, st) == Tok(EndTag, |s|)
    decreases |w|
  {
    if w == [] {
      assert w + [0x3E] == [0x3E];
      EndCloseAt(enc, s, i, st);
    } else {
      WhiteFirst(w, [0x3E]);
      Past1(s, i, w[0], w[1..] + [0x3E]);
      NoName(enc, s, i);
      TypeOf(enc, s[i]);
      EndGo(enc, s, i, st, i + 1, EndGap);
      EndToken(enc, s, i + 1, w[1..], EndGap);
      EndWayIs(enc, s, i, st, i + 1, EndGap);
    }
  }

  lemma EndParts(n: Name, space: seq<Byte>)
    requires n.local != [] && (n.prefix.Some? ==> n.prefix.value != [])
    ensures PrintEnd(n, space) == [0x3C] + ([0x2F] + (FirstChar(n) + NameThen(n, space + [0x3E])))
  {
    Assoc([0x3C, 0x2F] + PrintName(n), space, [0x3E]);
    Assoc([0x3C, 0x2F], PrintName(n), space + [0x3E]);
    NameParts(n, space + [0x3E]);
    assert [0x3C, 0x2F] == [0x3C] + [0x2F];
    Assoc([0x3C], [0x2F], PrintName(n) + (space + [0x3E]));
  }

  /** A printed end tag is one token. */
  lemma PrintedEnd(enc: Encoding, n: Name, space: seq<Byte>)
    requires Ascii(enc) && IsName(enc, n) && AllWhite(space)
    ensures ContentTok(enc, PrintEnd(n, space)) == Tok(EndTag, |PrintEnd(n, space)|)
  {
    var s, ch, more := PrintEnd(n, space), FirstChar(n), NameThen(n, space + [0x3E]);
    EndParts(n, space);
    Whole(s);
    Past1(s, 0, 0x3C, [0x2F] + (ch + more));
    Past1(s, 1, 0x2F, ch + more);
    CharIs(enc, s, 2, ch, more);
    NoName(enc, s, 1);
    TypeOf(enc, s[0]);
    TypeOf(enc, s[1]);
    EndGo(enc, s, 2, EndFirst, 2 + |ch|, EndName);
    var j := EndNameEnd(enc, s, 2 + |ch|, n, space + [0x3E]);
    EndToken(enc, s, j, space, EndName);
    EndJoin(enc, s, 2, EndFirst, 2 + |ch|, EndName, j, EndName);
    EndWayIs(enc, s, 2, EndFirst, j, EndName);
  }

  // ----- comments

  lemma RemarkFirst(enc: Encoding, cs: seq<seq<Byte>>)
    requires IsRemark(enc, cs) && cs != []
    ensures Legal(enc, cs[0]) && IsRemark(enc, cs[1..]) == true
    ensures cs[0] == [0x2D] ==> |cs| > 1 && cs[1] != [0x2D]
  {
    forall k | 0 <= k < |cs[1..]|
      ensures cs[1..][k] == cs[k + 1] && Legal(enc, cs[1..][k])
    {
    }
  }

  lemma RemarkStep(enc: Encoding, s: seq<Byte>, i: nat, ch: seq<Byte>, dash: bool, tail: seq<Byte>)
    requires Ascii(enc) && Legal(enc, ch) && (dash ==> ch != [0x2D]) && Rest(s, i, ch + tail)
    ensures Rest(s, i + |ch|, tail)
    ensures CommentRun(enc, s, i, if dash then CommentDash else CommentBody) ==
            CommentRun(enc, s, i + |ch|, if ch == [0x2D] then CommentDash else CommentBody)
  {
    CharIs(enc, s, i, ch, tail);
    OneByte(enc, ch, 0x2D);
    TypeOf(enc, s[i]);
  }

  lemma RemarkEnd(enc: Encoding, s: seq<Byte>, i: nat)
    requires Ascii(enc) && Rest(s, i, [0x2D, 0x2D, 0x3E])
    ensures CommentRun(enc, s, i, CommentBody) == Tok(Comment, |s|)
  {
    RestIs(s, i, [0x2D, 0x2D, 0x3E]);
    assert s[i..][0] == s[i] && s[i..][1] == s[i + 1] && s[i..][2] == s[i + 2];
    TypeOf(enc, s[i]);
    assert CommentStep(enc, s, i, CommentBody) == Go(i + 1, CommentDash);
    assert CommentRun(enc, s, i + 1, CommentDash) == CommentRun(enc, s, i + 2, CommentEnd);
  }

  lemma {:induction false} RemarkToken(enc: Encoding, s: seq<Byte>, i: nat, cs: seq<seq<Byte>>, dash: bool)
    requires Ascii(enc) && IsRemark(enc, cs) && (dash ==> cs != [] && cs[0] != [0x2D])
    requires Rest(s, i, Concat(cs) + [0x2D, 0x2D, 0x3E])
    ensures CommentRun(enc, s, i, if dash then CommentDash else CommentBody) == Tok(Comment, |s|)
    decreases |cs|
  {
    if cs == [] {
      assert Concat(cs) + [0x2D, 0x2D, 0x3E] == [0x2D, 0x2D, 0x3E];
      RemarkEnd(enc, s, i);
    } else {
      ConcatFirst(cs, [0x2D, 0x2D, 0x3E]);
      RemarkFirst(enc, cs);
      RemarkStep(enc, s, i, cs[0], dash, Concat(cs[1..]) + [0x2D, 0x2D, 0x3E]);
      RemarkToken(enc, s, i + |cs[0]|, cs[1..], cs[0] == [0x2D]);
    }
  }

  /** A printed comment is one token. */
  lemma PrintedRemark(enc: Encoding, cs: seq<seq<Byte>>)
    requires Ascii(enc) && IsRemark(enc, cs)
    ensures ContentTok(enc, PrintRemark(cs)) == Tok(Comment, |PrintRemark(cs)|)
  {
    var s, open: seq<Byte>, end: seq<Byte> := PrintRemark(cs), [0x3C, 0x21, 0x2D, 0x2D], [0x2D, 0x2D, 0x3E];
    Assoc(open, Concat(cs), end);
    Whole(s);
    Past(s, 0, open, Concat(cs) + end);
    assert s[0] == 0x3C && s[1] == s[..4][1] == 0x21 && s[2] == s[..4][2] == 0x2D && s[3] == s[..4][3] == 0x2D;
    NoName(enc, s, 1);
    TypeOf(enc, s[0]);
    TypeOf(enc, s[1]);
    TypeOf(enc, s[2]);
    RemarkToken(enc, s, 4, cs, false);
    assert CommentRun(enc, s, 3, CommentFirst) == CommentRun(enc, s, 4, CommentBody);
  }

  // ----- processing instructions

  /** The run from `i` in `st` goes on at `j` in `next`. */
  ghost predicate PiWay(enc: Encoding, s: seq<Byte>, target: nat, i: nat, st: PiState, j: nat, next: PiState) {
    target <= i <= |s| && target <= j <= |s| &&
    forall k {:trigger WayAsked(k, s, i, j)} ::
      WayAsked(k, s, i, j) ==> PiRun(enc, s, target, i, st) == PiRun(enc, s, target, j, next)
  }

  lemma PiWayIs(enc: Encoding, s: seq<Byte>, target: nat, i: nat, st: PiState, j: nat, next: PiState)
    requires target <= i <= |s| && target <= j <= |s|
    ensures PiWay(enc, s, target, i, st, j, next) <==> PiRun(enc, s, target, i, st) == PiRun(enc, s, target, j, next)
  {
    assert WayAsked(0, s, i, j);
  }

  lemma PiJoin(enc: Encoding, s: seq<Byte>, target: nat, i: nat, st: PiState, j: nat, next: PiState, k: nat, last: PiState)
    requires PiWay(enc, s, target, i, st, j, next) && PiWay(enc, s, target, j, next, k, last)
    ensures PiWay(enc, s, target, i, st, k, last)
  {
    PiWayIs(enc, s, target, i, st, j, next);
    PiWayIs(enc, s, target, j, next, k, last);
    PiWayIs(enc, s, target, i, st, k, last);
  }

  lemma PiGo(enc: Encoding, s: seq<Byte>, target: nat, i: nat, st: PiState, j: nat, next: PiState)
    requires target <= i < |s| && PiStep(enc, s, target, i, st) == Go(j, next)
    ensures PiWay(enc, s, target, i, st, j, next)
  {
    PiWayIs(enc, s, target, i, st, j, next);
  }

  lemma PiNameChar(enc: Encoding, s: seq<Byte>, target: nat, i: nat, ch: seq<Byte>, tail: seq<Byte>)
    requires Ascii(enc) && InName(enc, ch) && Rest(s, i, ch + tail) && target <= i
    ensures Rest(s, i + |ch|, tail) && PiWay(enc, s, target, i, PiName, i + |ch|, PiName)
  {
    CharIs(enc, s, i, ch, tail);
    PiGo(enc, s, target, i, PiName, i + |ch|, PiName);
  }

  lemma {:induction false} PiNames(enc: Encoding, s: seq<Byte>, target: nat, i: nat, cs: seq<seq<Byte>>, tail: seq<Byte>)
    requires Ascii(enc) && Rest(s, i, Concat(cs) + tail) && target <= i && forall k | 0 <= k < |cs| :: InName(enc, cs[k])
    ensures Rest(s, i + |Concat(cs)|, tail) && PiWay(enc, s, target, i, PiName, i + |Concat(cs)|, PiName)
    decreases |cs|
  {
    if cs == [] {
      assert Concat(cs) + tail == tail;
      PiWayIs(enc, s, target, i, PiName, i, PiName);
    } else {
      var j := i + |cs[0]|;
      ConcatFirst(cs, tail);
      PiNameChar(enc, s, target, i, cs[0], Concat(cs[1..]) + tail);
      PiNames(enc, s, target, j, cs[1..], tail);
      PiJoin(enc, s, target, i, PiName, j, PiName, i + |Concat(cs)|, PiName);
    }
  }

  /** The text of an instruction, in a state behind a question mark or not. */
  lemma PiTextStep(enc: Encoding, s: seq<Byte>, target: nat, i: nat, ch: seq<Byte>, quest: bool, decl: bool, tail: seq<Byte>)
    requires Ascii(enc) && Legal(enc, ch) && (quest ==> ch != [0x3E]) && target <= i && Rest(s, i, ch + tail)
    ensures Rest(s, i + |ch|, tail)
    ensures PiRun(enc, s, target, i, if quest then PiQuest(decl) else PiBody(decl)) ==
            PiRun(enc, s, target, i + |ch|, if ch == [0x3F] then PiQuest(decl) else PiBody(decl))
  {
    CharIs(enc, s, i, ch, tail);
    OneByte(enc, ch, 0x3E);
    OneByte(enc, ch, 0x3F);
    TypeOf(enc, s[i]);
  }

  lemma PiTextEnd(enc: Encoding, s: seq<Byte>, target: nat, i: nat, quest: bool, decl: bool)
    requires Ascii(enc) && target <= i && Rest(s, i, [0x3F, 0x3E])
    ensures PiRun(enc, s, target, i, if quest then PiQuest(decl) else PiBody(decl)) == Tok(PiKind(decl), |s|)
  {
    RestIs(s, i, [0x3F, 0x3E]);
    assert s[i..][0] == s[i] && s[i..][1] == s[i + 1];
    TypeOf(enc, s[i]);
    PiGo(enc, s, target, i, if quest then PiQuest(decl) else PiBody(decl), i + 1, PiQuest(decl));
    PiWayIs(enc, s, target, i, if quest then PiQuest(decl) else PiBody(decl), i + 1, PiQuest(decl));
  }

  predicate IsOrderText(enc: Encoding, cs: seq<seq<Byte>>) {
    && (forall k | 0 <= k < |cs| :: Legal(enc, cs[k]))
    && (forall k | 0 <= k < |cs| - 1 && cs[k] == [0x3F] :: cs[k + 1] != [0x3E])
  }

  lemma TextFirst(enc: Encoding, cs: seq<seq<Byte>>)
    requires IsOrderText(enc, cs) && cs != []
    ensures Legal(enc, cs[0]) && IsOrderText(enc, cs[1..]) == true
    ensures cs[0] == [0x3F] && |cs| > 1 ==> cs[1] != [0x3E]
  {
    forall k | 0 <= k < |cs[1..]|
      ensures cs[1..][k] == cs[k + 1] && Legal(enc, cs[1..][k])
    {
    }
  }

  lemma {:induction false} PiTextToken(enc: Encoding, s: seq<Byte>, target: nat, i: nat, cs: seq<seq<Byte>>, quest: bool, decl: bool)
    requires Ascii(enc) && IsOrderText(enc, cs) && (quest && cs != [] ==> cs[0] != [0x3E]) && target <= i
    requires Rest(s, i, Concat(cs) + [0x3F, 0x3E])
    ensures PiRun(enc, s, target, i, if quest then PiQuest(decl) else PiBody(decl)) == Tok(PiKind(decl), |s|)
    decreases |cs|
  {
    if cs == [] {
      assert Concat(cs) + [0x3F, 0x3E] == [0x3F, 0x3E];
      PiTextEnd(enc, s, target, i, quest, decl);
    } else {
      ConcatFirst(cs, [0x3F, 0x3E]);
      TextFirst(enc, cs);
      PiTextStep(enc, s, target, i, cs[0], quest, decl, Concat(cs[1..]) + [0x3F, 0x3E]);
      PiTextToken(enc, s, target, i + |cs[0]|, cs[1..], cs[0] == [0x3F], decl);
    }
  }

  lemma TargetIs(s: seq<Byte>, target: nat, i: nat)
    requires target <= i <= |s|
    ensures PiTarget(s, target, i) ==
            if IsXml(s[target..i]) then Declaration else if LikeXml(s[target..i]) then Miscased else Plain
  {
    var w := s[target..i];
    if |w| == 3 {
      assert w[0] == s[target] && w[1] == s[target + 1] && w[2] == s[target + 2];
      assert w == [w[0], w[1], w[2]];
    }
  }

  /** The byte behind the target decides what the instruction is. */
  lemma TargetStep(enc: Encoding, s: seq<Byte>, target: nat, i: nat)
    requires Ascii(enc) && target <= i < |s| && (White(s[i]) || s[i] == 0x3F)
    requires LikeXml(s[target..i]) ==> IsXml(s[target..i])
    ensures var decl := IsXml(s[target..i]);
            PiWay(enc, s, target, i, PiName, i + 1, if s[i] == 0x3F then PiNameQuest(decl) else PiBody(decl))
  {
    var decl := IsXml(s[target..i]);
    TargetIs(s, target, i);
    NoName(enc, s, i);
    TypeOf(enc, s[i]);
    PiGo(enc, s, target, i, PiName, i + 1, if s[i] == 0x3F then PiNameQuest(decl) else PiBody(decl));
  }

  /** Behind the target. */
  lemma PiTailToken(enc: Encoding, s: seq<Byte>, target: nat, i: nat, o: Order)
    requires Ascii(enc) && IsOrder(enc, o) && target <= i
    requires Rest(s, i, o.gap + (Concat(o.text) + [0x3F, 0x3E])) && (LikeXml(s[target..i]) ==> IsXml(s[target..i]))
    ensures PiRun(enc, s, target, i, PiName) == Tok(PiKind(IsXml(s[target..i])), |s|)
  {
    var decl, end: seq<Byte> := IsXml(s[target..i]), [0x3F, 0x3E];
    if o.gap == [] {
      assert o.gap + (Concat(o.text) + end) == [0x3F] + [0x3E];
      Past1(s, i, 0x3F, [0x3E]);
      TargetStep(enc, s, target, i);
      PiNameEnd(enc, s, target, i + 1, decl);
      PiWayIs(enc, s, target, i, PiName, i + 1, PiNameQuest(decl));
    } else {
      assert o.gap == [o.gap[0]];
      Past1(s, i, o.gap[0], Concat(o.text) + end);
      TargetStep(enc, s, target, i);
      PiTextToken(enc, s, target, i + 1, o.text, false, decl);
      PiWayIs(enc, s, target, i, PiName, i + 1, PiBody(decl));
    }
  }

  lemma PiNameEnd(enc: Encoding, s: seq<Byte>, target: nat, i: nat, decl: bool)
    requires target <= i && Rest(s, i, [0x3E])
    ensures PiRun(enc, s, target, i, PiNameQuest(decl)) == Tok(PiKind(decl), |s|)
  {
    assert Close(false) == [0x3E];
    CloseFirst(s, i, false);
  }

  lemma OrderParts(o: Order)
    ensures PrintOrder(o) == [0x3C] + ([0x3F] + (Concat(o.target) + (o.gap + (Concat(o.text) + [0x3F, 0x3E]))))
  {
    var more := o.gap + (Concat(o.text) + [0x3F, 0x3E]);
    Group4([0x3C, 0x3F], Concat(o.target), o.gap, Concat(o.text), [0x3F, 0x3E]);
    assert [0x3C, 0x3F] == [0x3C] + [0x3F];
    Assoc([0x3C], [0x3F], Concat(o.target) + more);
  }

  lemma TargetEnd(enc: Encoding, s: seq<Byte>, i: nat, target: seq<seq<Byte>>, tail: seq<Byte>) returns (j: nat)
    requires Ascii(enc) && NcName(enc, target) && Rest(s, i, Concat(target) + tail)
    ensures Rest(s, j, tail) && j == i + |Concat(target)| && PiWay(enc, s, i, i, PiFirst, j, PiName)
  {
    var k := i + |target[0]|;
    j := k + |Concat(target[1..])|;
    ConcatFirst(target, tail);
    CharIs(enc, s, i, target[0], Concat(target[1..]) + tail);
    PiGo(enc, s, i, i, PiFirst, k, PiName);
    PiNames(enc, s, i, k, target[1..], tail);
    PiJoin(enc, s, i, i, PiFirst, k, PiName, j, PiName);
  }

  /** A printed processing instruction is one token; with the target `xml` it is the token
      of a declaration. */
  lemma PrintedOrder(enc: Encoding, o: Order)
    requires Ascii(enc) && IsOrder(enc, o) && (LikeXml(Concat(o.target)) ==> IsXml(Concat(o.target)))
    ensures ContentTok(enc, PrintOrder(o)) == Tok(PiKind(IsXml(Concat(o.target))), |PrintOrder(o)|)
  {
    var s, more := PrintOrder(o), o.gap + (Concat(o.text) + [0x3F, 0x3E]);
    OrderParts(o);
    Whole(s);
    Past1(s, 0, 0x3C, [0x3F] + (Concat(o.target) + more));
    Past1(s, 1, 0x3F, Concat(o.target) + more);
    NoName(enc, s, 1);
    TypeOf(enc, s[0]);
    TypeOf(enc, s[1]);
    Past(s, 2, Concat(o.target), more);
    var j := TargetEnd(enc, s, 2, o.target, more);
    PiTailToken(enc, s, 2, j, o);
    PiWayIs(enc, s, 2, 2, PiFirst, j, PiName);
  }

  // ----- sections

  /** The opening of a CDATA section. */
  lemma PrintedOpen(enc: Encoding)
    requires Ascii(enc)
    ensures ContentTok(enc, [0x3C, 0x21, 0x5B, 0x43, 0x44, 0x41, 0x54, 0x41, 0x5B]) == Tok(CdataOpen, 9)
  {
    var s: seq<Byte> := [0x3C, 0x21, 0x5B, 0x43, 0x44, 0x41, 0x54, 0x41, 0x5B];
    NoName(enc, s, 1);
    TypeOf(enc, s[0]);
    TypeOf(enc, s[1]);
    TypeOf(enc, s[2]);
    assert s[3..9] == CDATA_LSQB;
  }

  // ----- raw names

  /** The raw name goes on at `j`. */
  ghost predicate RawWay(enc: Encoding, s: seq<Byte>, i: nat, j: nat) {
    i <= |s| && j <= |s| &&
    forall k {:trigger WayAsked(k, s, i, j)} :: WayAsked(k, s, i, j) ==> NameEnd(enc, s, i) == NameEnd(enc, s, j)
  }

  lemma RawJoin(enc: Encoding, s: seq<Byte>, i: nat, j: nat, k: nat)
    requires RawWay(enc, s, i, j) && RawWay(enc, s, j, k)
    ensures RawWay(enc, s, i, k)
  {
    assert WayAsked(0, s, i, j) && WayAsked(0, s, j, k);
  }

  lemma RawChar(enc: Encoding, s: seq<Byte>, i: nat, ch: seq<Byte>, tail: seq<Byte>)
    requires Ascii(enc) && (InName(enc, ch) || ch == [0x3A]) && Rest(s, i, ch + tail)
    ensures Rest(s, i + |ch|, tail) && RawWay(enc, s, i, i + |ch|)
  {
    TypeOf(enc, ch[0]);
    CharIs(enc, s, i, ch, tail);
  }

  lemma {:induction false} RawNames(enc: Encoding, s: seq<Byte>, i: nat, cs: seq<seq<Byte>>, tail: seq<Byte>)
    requires Ascii(enc) && Rest(s, i, Concat(cs) + tail) && forall k | 0 <= k < |cs| :: InName(enc, cs[k])
    ensures Rest(s, i + |Concat(cs)|, tail) && RawWay(enc, s, i, i + |Concat(cs)|)
    decreases |cs|
  {
    if cs == [] {
      assert Concat(cs) + tail == tail;
    } else {
      var j := i + |cs[0]|;
      ConcatFirst(cs, tail);
      RawChar(enc, s, i, cs[0], Concat(cs[1..]) + tail);
      RawNames(enc, s, j, cs[1..], tail);
      RawJoin(enc, s, i, j, i + |Concat(cs)|);
    }
  }

  lemma NamesIn(enc: Encoding, cs: seq<seq<Byte>>)
    requires Ascii(enc) && NcName(enc, cs)
    ensures forall k | 0 <= k < |cs| :: InName(enc, cs[k])
  {
    StartIsIn(enc, cs[0]);
  }

  lemma RawPrefix(enc: Encoding, s: seq<Byte>, i: nat, p: seq<seq<Byte>>, tail: seq<Byte>) returns (k: nat)
    requires Ascii(enc) && NcName(enc, p) && Rest(s, i, Concat(p) + ([0x3A] + tail))
    ensures Rest(s, k, tail) && RawWay(enc, s, i, k)
  {
    var j := i + |Concat(p)|;
    k := j + 1;
    NamesIn(enc, p);
    RawNames(enc, s, i, p, [0x3A] + tail);
    RawChar(enc, s, j, [0x3A], tail);
    RawJoin(enc, s, i, j, k);
  }

  lemma RawStop(enc: Encoding, s: seq<Byte>, i: nat, tail: seq<Byte>)
    requires Ascii(enc) && tail != [] && (White(tail[0]) || tail[0] == 0x2F || tail[0] == 0x3E) && Rest(s, i, tail)
    ensures NameEnd(enc, s, i) == i
  {
    assert tail == [tail[0]] + tail[1..];
    Past1(s, i, tail[0], tail[1..]);
    TypeOf(enc, s[i]);
  }

  /** From the start of a printed name to its end. */
  lemma RawThrough(enc: Encoding, s: seq<Byte>, i: nat, n: Name, tail: seq<Byte>) returns (k: nat)
    requires Ascii(enc) && IsName(enc, n) && Rest(s, i, PrintName(n) + tail)
    ensures Rest(s, k, tail) && RawWay(enc, s, i, k)
  {
    NamesIn(enc, n.local);
    if n.prefix.Some? {
      var p := n.prefix.value;
      Assoc(Concat(p) + [0x3A], Concat(n.local), tail);
      Assoc(Concat(p), [0x3A], Concat(n.local) + tail);
      var j := RawPrefix(enc, s, i, p, Concat(n.local) + tail);
      k := j + |Concat(n.local)|;
      RawNames(enc, s, j, n.local, tail);
      RawJoin(enc, s, i, j, k);
    } else {
      assert PrintName(n) == Concat(n.local);
      k := i + |Concat(n.local)|;
      RawNames(enc, s, i, n.local, tail);
    }
  }

  lemma SamePlace(s: seq<Byte>, i: nat, j: nat, tail: seq<Byte>)
    requires Rest(s, i, tail) && Rest(s, j, tail)
    ensures i == j
  {
    RestIs(s, i, tail);
    RestIs(s, j, tail);
  }

  /** The raw name is the printed one where something follows that is in no name. */
  lemma RawIsName(enc: Encoding, s: seq<Byte>, i: nat, n: Name, tail: seq<Byte>)
    requires Ascii(enc) && IsName(enc, n) && Rest(s, i, PrintName(n) + tail)
    requires tail != [] && (White(tail[0]) || tail[0] == 0x2F || tail[0] == 0x3E)
    ensures RawName(enc, s, i) == PrintName(n)
  {
    var j := i + |PrintName(n)|;
    Past(s, i, PrintName(n), tail);
    RawStop(enc, s, j, tail);
    var k := RawThrough(enc, s, i, n, tail);
    SamePlace(s, j, k, tail);
    assert WayAsked(0, s, i, k);
  }

  /** The raw name in a printed tag. */
  lemma TagRawName(enc: Encoding, t: Tag, empty: bool)
    requires Ascii(enc) && IsTag(enc, t)
    ensures RawName(enc, PrintTag(t, empty), 1) == PrintName(t.name)
  {
    var s, tail := PrintTag(t, empty), PrintAtts(t.atts) + (t.space + Close(empty));
    Group4([0x3C], PrintName(t.name), PrintAtts(t.atts), t.space, Close(empty));
    Whole(s);
    Past1(s, 0, 0x3C, PrintName(t.name) + tail);
    if t.atts != [] {
      var a, more := t.atts[0], PrintAtts(t.atts[1..]) + (t.space + Close(empty));
      AttsFirst(enc, t.atts, t.space + Close(empty));
      AttParts(a, more);
      assert tail[0] == a.gap[0];
    } else if t.space != [] {
      assert tail[0] == t.space[0];
    } else {
      assert tail == Close(empty);
    }
    RawIsName(enc, s, 1, t.name, tail);
  }

  lemma EndRawName(enc: Encoding, n: Name, space: seq<Byte>)
    requires Ascii(enc) && IsName(enc, n) && AllWhite(space)
    ensures RawName(enc, PrintEnd(n, space), 2) == PrintName(n)
  {
    var s, tail := PrintEnd(n, space), space + [0x3E];
    Assoc([0x3C, 0x2F] + PrintName(n), space, [0x3E]);
    Assoc([0x3C, 0x2F], PrintName(n), tail);
    Whole(s);
    Past(s, 0, [0x3C, 0x2F], PrintName(n) + tail);
    if space != [] {
      assert tail[0] == space[0];
    }
    RawIsName(enc, s, 2, n, tail);
  }
}
