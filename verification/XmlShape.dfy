/** Every token is the text of a piece of markup: the tokenizer accepts nothing else
    (expat/xmltok_impl.c:87-299, 377-779). */
module XmlShape {
  import opened Wrappers
  import opened Endian
  import opened XmlBytes
  import opened XmlScan
  import opened XmlContent
  import opened XmlPrint
  import opened XmlMarkup

  lemma Cut(s: seq<Byte>, i: nat, j: nat, k: nat)
    requires i <= j <= k <= |s|
    ensures s[i..k] == s[i..j] + s[j..k]
  {
  }

  /** A first character, and what follows it. */
  lemma CharBefore(s: seq<Byte>, i: nat, j: nat, k: nat, cs: seq<seq<Byte>>, tail: seq<Byte>)
    requires i <= j <= k <= |s| && s[j..k] == Concat(cs) + tail
    ensures s[i..k] == Concat([s[i..j]] + cs) + tail
  {
    Cut(s, i, j, k);
    assert ([s[i..j]] + cs)[1..] == cs;
    Assoc(s[i..j], Concat(cs), tail);
  }

  // ----- characters

  /** What passes a test on characters is such a character. */
  lemma CharOf(enc: Encoding, s: seq<Byte>, i: nat)
    requires i < |s|
    ensures var c := NameStep(enc, s, i); c.Skip? ==> i + c.width <= |s| && InName(enc, s[i..i + c.width])
    ensures var c := NmstrtStep(enc, s, i); c.Skip? ==> i + c.width <= |s| && StartsName(enc, s[i..i + c.width])
    ensures var c := ValidStep(enc, s, i); c.Skip? ==> i + c.width <= |s| && Legal(enc, s[i..i + c.width])
    ensures ValidStep(enc, s, i).Own? ==> Legal(enc, s[i..i + 1])
  {
  }

  // ----- references

  lemma RefNameOne(enc: Encoding, s: seq<Byte>, i: nat, kind: Kind, next: nat) returns (last: bool, j: nat)
    requires Ascii(enc) && i <= |s| && RefRun(enc, s, i, RefName) == Tok(kind, next)
    ensures last ==> kind == EntityRef && next == i + 1 <= |s| && s[i] == 0x3B
    ensures !last ==> i < j <= |s| && InName(enc, s[i..j]) && RefRun(enc, s, j, RefName) == Tok(kind, next)
  {
    CharOf(enc, s, i);
    TypeOf(enc, s[i]);
    var c := NameStep(enc, s, i);
    last, j := !c.Skip?, if c.Skip? then i + c.width else i;
  }

  lemma {:induction false} RefNamesShape(enc: Encoding, s: seq<Byte>, i: nat, kind: Kind, next: nat) returns (cs: seq<seq<Byte>>)
    requires Ascii(enc) && i <= |s| && RefRun(enc, s, i, RefName) == Tok(kind, next)
    ensures kind == EntityRef && i < next <= |s| && s[i..next] == Concat(cs) + [0x3B]
    ensures forall k | 0 <= k < |cs| :: InName(enc, cs[k])
    decreases |s| - i
  {
    var last, j := RefNameOne(enc, s, i, kind, next);
    if last {
      cs := [];
      assert s[i..next] == [0x3B];
    } else {
      var more := RefNamesShape(enc, s, j, kind, next);
      cs := [s[i..j]] + more;
      CharBefore(s, i, j, next, more, [0x3B]);
    }
  }

  lemma {:induction false} RefDigitsShape(enc: Encoding, s: seq<Byte>, i: nat, st: RefState, kind: Kind, next: nat)
      returns (d: seq<Byte>)
    requires Ascii(enc) && i <= |s| && RefRun(enc, s, i, st) == Tok(kind, next) && (st == NumDec || st == NumHex)
    ensures kind == CharRef && i < next <= |s| && s[i..next] == d + [0x3B]
    ensures forall k | 0 <= k < |d| :: if st == NumDec then IsDec(d[k]) else IsHex(d[k])
    decreases |s| - i
  {
    TypeOf(enc, s[i]);
    var m := RefStep(enc, s, i, st);
    if m.Go? {
      var more := RefDigitsShape(enc, s, i + 1, st, kind, next);
      d := [s[i]] + more;
      Cut(s, i, i + 1, next);
      Assoc([s[i]], more, [0x3B]);
    } else {
      d := [];
      assert s[i..next] == [0x3B];
    }
  }

  lemma NumberShape(enc: Encoding, s: seq<Byte>, i: nat, kind: Kind, next: nat) returns (r: Ref)
    requires Ascii(enc) && i <= |s| && RefRun(enc, s, i, NumFirst) == Tok(kind, next)
    ensures kind == CharRef && i < next <= |s| && IsRef(enc, r) && !r.ByName?
    ensures s[i..next] == (if r.ByHex? then [0x78] else []) + r.digits + [0x3B]
  {
    TypeOf(enc, s[i]);
    var hex := s[i] == 0x78;
    var j := if hex then i + 1 else i;
    if hex {
      TypeOf(enc, s[j]);
      assert RefRun(enc, s, j, NumHexFirst) == Tok(kind, next);
    }
    var d := RefDigitsShape(enc, s, j + 1, if hex then NumHex else NumDec, kind, next);
    var digits := [s[j]] + d;
    r := if hex then ByHex(digits) else ByDec(digits);
    Cut(s, j, j + 1, next);
    assert s[j..next] == digits + [0x3B];
    if hex {
      Cut(s, i, j, next);
      Assoc([0x78], digits, [0x3B]);
    }
  }

  lemma RefFirstOne(enc: Encoding, s: seq<Byte>, i: nat, kind: Kind, next: nat) returns (named: bool, j: nat)
    requires Ascii(enc) && i <= |s| && RefRun(enc, s, i, RefFirst) == Tok(kind, next)
    ensures i < j <= |s| && RefRun(enc, s, j, if named then RefName else NumFirst) == Tok(kind, next)
    ensures if named then StartsName(enc, s[i..j]) else j == i + 1 && s[i] == 0x23
  {
    CharOf(enc, s, i);
    TypeOf(enc, s[i]);
    var c := NmstrtStep(enc, s, i);
    named, j := c.Skip?, if c.Skip? then i + c.width else i + 1;
  }

  /** A reference that is accepted behind an ampersand. */
  lemma RefShape(enc: Encoding, s: seq<Byte>, i: nat, kind: Kind, next: nat) returns (r: Ref)
    requires Ascii(enc) && i <= |s| && RefRun(enc, s, i, RefFirst) == Tok(kind, next)
    ensures i < next <= |s| && IsRef(enc, r) && kind == RefKind(r) && s[i..next] == RefBody(r) + [0x3B]
  {
    var named, j := RefFirstOne(enc, s, i, kind, next);
    if named {
      var more := RefNamesShape(enc, s, j, kind, next);
      r := ByName([s[i..j]] + more);
      CharBefore(s, i, j, next, more, [0x3B]);
    } else {
      r := NumberShape(enc, s, j, kind, next);
      Cut(s, i, j, next);
    }
  }

  // ----- comments

  lemma {:induction false} RemarkShape(enc: Encoding, s: seq<Byte>, i: nat, kind: Kind, next: nat) returns (cs: seq<seq<Byte>>)
    requires Ascii(enc) && i <= |s| && CommentRun(enc, s, i, CommentBody) == Tok(kind, next)
    ensures kind == Comment && i < next <= |s| && IsRemark(enc, cs) && s[i..next] == Concat(cs) + [0x2D, 0x2D, 0x3E]
    decreases |s| - i
  {
    var j, ch := CommentOne(enc, s, i, CommentBody, kind, next);
    if ch != [0x2D] {
      var more := RemarkShape(enc, s, j, kind, next);
      cs := [ch] + more;
      CharBefore(s, i, j, next, more, [0x2D, 0x2D, 0x3E]);
    } else if s[j] == ASCII_MINUS {
      cs := [];
      assert s[i..next] == [0x2D, 0x2D, 0x3E];
    } else {
      var k, after := CommentOne(enc, s, j, CommentDash, kind, next);
      var more := RemarkShape(enc, s, k, kind, next);
      cs := [ch, after] + more;
      CharBefore(s, j, k, next, more, [0x2D, 0x2D, 0x3E]);
      CharBefore(s, i, j, next, [after] + more, [0x2D, 0x2D, 0x3E]);
      assert [ch] + ([after] + more) == cs;
    }
  }

  /** One character of a comment. */
  lemma CommentOne(enc: Encoding, s: seq<Byte>, i: nat, st: CommentState, kind: Kind, next: nat) returns (j: nat, ch: seq<Byte>)
    requires Ascii(enc) && i <= |s| && CommentRun(enc, s, i, st) == Tok(kind, next)
    requires st == CommentBody || (st == CommentDash && i < |s| && s[i] != ASCII_MINUS)
    ensures i < j < |s| && ch == s[i..j] && Legal(enc, ch) && (st == CommentDash ==> ch != [0x2D])
    ensures CommentRun(enc, s, j, if ch == [0x2D] then CommentDash else CommentBody) == Tok(kind, next)
  {
    CharOf(enc, s, i);
    TypeOf(enc, s[i]);
    var c := ValidStep(enc, s, i);
    j := if c.Skip? then i + c.width else i + 1;
    ch := s[i..j];
    OneByte(enc, ch, 0x2D);
  }

  // ----- processing instructions

  /** One character of the text of an instruction. */
  lemma PiOne(enc: Encoding, s: seq<Byte>, target: nat, i: nat, decl: bool, kind: Kind, next: nat) returns (j: nat, ch: seq<Byte>)
    requires Ascii(enc) && target <= i <= |s| && PiRun(enc, s, target, i, PiBody(decl)) == Tok(kind, next)
    ensures i < j < |s| && ch == s[i..j] && Legal(enc, ch)
    ensures PiRun(enc, s, target, j, if ch == [0x3F] then PiQuest(decl) else PiBody(decl)) == Tok(kind, next)
  {
    CharOf(enc, s, i);
    TypeOf(enc, s[i]);
    var c := ValidStep(enc, s, i);
    j := if c.Skip? then i + c.width else i + 1;
    ch := s[i..j];
    OneByte(enc, ch, 0x3F);
  }

  /** A question mark in front of anything but `>` is a character like any other. */
  lemma QuestIsText(enc: Encoding, s: seq<Byte>, target: nat, i: nat, decl: bool)
    requires target <= i < |s| && s[i] != ASCII_GT
    ensures PiRun(enc, s, target, i, PiQuest(decl)) == PiRun(enc, s, target, i, PiBody(decl))
  {
  }

  lemma {:induction false} PiTextShape(enc: Encoding, s: seq<Byte>, target: nat, i: nat, decl: bool, kind: Kind, next: nat)
      returns (cs: seq<seq<Byte>>)
    requires Ascii(enc) && target <= i <= |s| && PiRun(enc, s, target, i, PiBody(decl)) == Tok(kind, next)
    ensures kind == PiKind(decl) && i < next <= |s| && IsOrderText(enc, cs)
    ensures s[i..next] == Concat(cs) + [0x3F, 0x3E]
    decreases |s| - i
  {
    var j, ch := PiOne(enc, s, target, i, decl, kind, next);
    if ch == [0x3F] && s[j] == ASCII_GT {
      cs := [];
      assert s[i..next] == [0x3F, 0x3E];
    } else {
      if ch == [0x3F] {
        QuestIsText(enc, s, target, j, decl);
      }
      var more := PiTextShape(enc, s, target, j, decl, kind, next);
      cs := [ch] + more;
      CharBefore(s, i, j, next, more, [0x3F, 0x3E]);
      TextBefore(enc, s, j, next, ch, more);
    }
  }

  lemma TextBefore(enc: Encoding, s: seq<Byte>, j: nat, next: nat, ch: seq<Byte>, more: seq<seq<Byte>>)
    requires Legal(enc, ch) && IsOrderText(enc, more) && j < next <= |s| && s[j..next] == Concat(more) + [0x3F, 0x3E]
    requires ch == [0x3F] ==> s[j] != 0x3E
    ensures IsOrderText(enc, [ch] + more)
  {
    var cs := [ch] + more;
    if more != [] {
      ConcatFirst(more, [0x3F, 0x3E]);
      assert s[j..next][0] == s[j];
    }
    forall k | 0 <= k < |more|
      ensures cs[k + 1] == more[k]
    {
    }
  }

  lemma PiNameOne(enc: Encoding, s: seq<Byte>, target: nat, i: nat, kind: Kind, next: nat) returns (last: bool, j: nat)
    requires target <= i <= |s| && PiRun(enc, s, target, i, PiName) == Tok(kind, next)
    ensures i < |s| && last == (NameStep(enc, s, i) == Own)
    ensures !last ==> i < j <= |s| && InName(enc, s[i..j]) && PiRun(enc, s, target, j, PiName) == Tok(kind, next)
  {
    CharOf(enc, s, i);
    var c := NameStep(enc, s, i);
    last, j := !c.Skip?, if c.Skip? then i + c.width else i;
  }

  lemma {:induction false} PiNamesShape(enc: Encoding, s: seq<Byte>, target: nat, i: nat, kind: Kind, next: nat)
      returns (cs: seq<seq<Byte>>, j: nat)
    requires target <= i <= |s| && PiRun(enc, s, target, i, PiName) == Tok(kind, next)
    ensures i <= j < |s| && s[i..j] == Concat(cs) && PiRun(enc, s, target, j, PiName) == Tok(kind, next)
    ensures NameStep(enc, s, j) == Own && forall k | 0 <= k < |cs| :: InName(enc, cs[k])
    decreases |s| - i
  {
    var last, x := PiNameOne(enc, s, target, i, kind, next);
    if last {
      cs, j := [], i;
    } else {
      var more;
      more, j := PiNamesShape(enc, s, target, x, kind, next);
      cs := [s[i..x]] + more;
      Cut(s, i, x, j);
      assert cs[1..] == more;
    }
  }

  /** What is accepted behind the target. */
  lemma PiTailShape(enc: Encoding, s: seq<Byte>, target: nat, i: nat, kind: Kind, next: nat)
      returns (gap: seq<Byte>, text: seq<seq<Byte>>)
    requires Ascii(enc) && target <= i < |s| && PiRun(enc, s, target, i, PiName) == Tok(kind, next)
    requires NameStep(enc, s, i) == Own
    ensures i < next <= |s| && s[i..next] == gap + Concat(text) + [0x3F, 0x3E] && AllWhite(gap) && IsOrderText(enc, text)
    ensures if text == [] then |gap| <= 1 else |gap| == 1
    ensures kind == PiKind(IsXml(s[target..i])) && (LikeXml(s[target..i]) ==> IsXml(s[target..i]))
  {
    TargetIs(s, target, i);
    TypeOf(enc, s[i]);
    var decl := IsXml(s[target..i]);
    if s[i] == 0x3F {
      gap, text := [], [];
      assert PiRun(enc, s, target, i + 1, PiNameQuest(decl)) == Tok(kind, next);
      assert s[i..next] == [0x3F, 0x3E];
    } else {
      gap := [s[i]];
      text := PiTextShape(enc, s, target, i + 1, decl, kind, next);
      Cut(s, i, i + 1, next);
      Assoc(gap, Concat(text), [0x3F, 0x3E]);
    }
  }

  lemma PiFirstOne(enc: Encoding, s: seq<Byte>, i: nat, kind: Kind, next: nat) returns (k: nat)
    requires i <= |s| && PiRun(enc, s, i, i, PiFirst) == Tok(kind, next)
    ensures i < k <= |s| && StartsName(enc, s[i..k]) && PiRun(enc, s, i, k, PiName) == Tok(kind, next)
  {
    CharOf(enc, s, i);
    k := i + NmstrtStep(enc, s, i).width;
  }

  /** An instruction that is accepted behind `<?`. */
  lemma OrderShape(enc: Encoding, s: seq<Byte>, i: nat, kind: Kind, next: nat) returns (o: Order)
    requires Ascii(enc) && i <= |s| && PiRun(enc, s, i, i, PiFirst) == Tok(kind, next)
    ensures i < next <= |s| && IsOrder(enc, o) && s[i..next] == Concat(o.target) + (o.gap + Concat(o.text) + [0x3F, 0x3E])
    ensures kind == PiKind(IsXml(Concat(o.target))) && (LikeXml(Concat(o.target)) ==> IsXml(Concat(o.target)))
  {
    var k := PiFirstOne(enc, s, i, kind, next);
    var cs, j := PiNamesShape(enc, s, i, k, kind, next);
    var gap, text := PiTailShape(enc, s, i, j, kind, next);
    var target := [s[i..k]] + cs;
    assert target[1..] == cs;
    Cut(s, i, k, j);
    Cut(s, i, j, next);
    o := Order.Order(target, gap, text);
  }

  // ----- names

  lemma TagNameOne(enc: Encoding, s: seq<Byte>, i: nat, colon: bool, kind: Kind, next: nat) returns (last: bool, j: nat)
    requires i <= |s| && TagRun(enc, s, i, TagName(colon)) == Tok(kind, next)
    ensures i < |s| && last == (NameStep(enc, s, i) == Own)
    ensures !last ==> i < j <= |s| && InName(enc, s[i..j]) && TagRun(enc, s, j, TagName(colon)) == Tok(kind, next)
  {
    CharOf(enc, s, i);
    var c := NameStep(enc, s, i);
    last, j := !c.Skip?, if c.Skip? then i + c.width else i;
  }

  lemma {:induction false} TagNamesShape(enc: Encoding, s: seq<Byte>, i: nat, colon: bool, kind: Kind, next: nat)
      returns (cs: seq<seq<Byte>>, j: nat)
    requires i <= |s| && TagRun(enc, s, i, TagName(colon)) == Tok(kind, next)
    ensures i <= j < |s| && s[i..j] == Concat(cs) && TagRun(enc, s, j, TagName(colon)) == Tok(kind, next)
    ensures NameStep(enc, s, j) == Own && forall k | 0 <= k < |cs| :: InName(enc, cs[k])
    decreases |s| - i
  {
    var last, x := TagNameOne(enc, s, i, colon, kind, next);
    if last {
      cs, j := [], i;
    } else {
      var more;
      more, j := TagNamesShape(enc, s, x, colon, kind, next);
      cs := [s[i..x]] + more;
      Cut(s, i, x, j);
      assert cs[1..] == more;
    }
  }

  lemma AttNameOne(enc: Encoding, s: seq<Byte>, i: nat, colon: bool, kind: Kind, next: nat) returns (last: bool, j: nat)
    requires i <= |s| && AttRun(enc, s, i, AttName(colon)) == Tok(kind, next)
    ensures i < |s| && last == (NameStep(enc, s, i) == Own)
    ensures !last ==> i < j <= |s| && InName(enc, s[i..j]) && AttRun(enc, s, j, AttName(colon)) == Tok(kind, next)
  {
    CharOf(enc, s, i);
    var c := NameStep(enc, s, i);
    last, j := !c.Skip?, if c.Skip? then i + c.width else i;
  }

  lemma {:induction false} AttNamesShape(enc: Encoding, s: seq<Byte>, i: nat, colon: bool, kind: Kind, next: nat)
      returns (cs: seq<seq<Byte>>, j: nat)
    requires i <= |s| && AttRun(enc, s, i, AttName(colon)) == Tok(kind, next)
    ensures i <= j < |s| && s[i..j] == Concat(cs) && AttRun(enc, s, j, AttName(colon)) == Tok(kind, next)
    ensures NameStep(enc, s, j) == Own && forall k | 0 <= k < |cs| :: InName(enc, cs[k])
    decreases |s| - i
  {
    var last, x := AttNameOne(enc, s, i, colon, kind, next);
    if last {
      cs, j := [], i;
    } else {
      var more;
      more, j := AttNamesShape(enc, s, x, colon, kind, next);
      cs := [s[i..x]] + more;
      Cut(s, i, x, j);
      assert cs[1..] == more;
    }
  }

  /** A name of characters `cs` behind a first one, or with more behind a colon. */
  lemma NameOfParts(enc: Encoding, s: seq<Byte>, i: nat, k: nat, j: nat, cs: seq<seq<Byte>>) returns (n: Name)
    requires i < k <= j <= |s| && StartsName(enc, s[i..k]) && s[k..j] == Concat(cs)
    requires forall x | 0 <= x < |cs| :: InName(enc, cs[x])
    ensures IsName(enc, n) && n.prefix.None? && s[i..j] == PrintName(n)
  {
    var local := [s[i..k]] + cs;
    assert local[1..] == cs;
    Cut(s, i, k, j);
    n := Name.Name(None, local);
    assert [] + Concat(local) == Concat(local);
  }

  lemma NameOfBoth(enc: Encoding, s: seq<Byte>, i: nat, j: nat, k: nat, p: Name, l: Name) returns (n: Name)
    requires i <= j < k <= |s| && s[j] == 0x3A && IsName(enc, p) && IsName(enc, l) && p.prefix.None? && l.prefix.None?
    requires s[i..j] == PrintName(p) && s[j + 1..k] == PrintName(l)
    ensures IsName(enc, n) && s[i..k] == PrintName(n)
  {
    n := Name.Name(Some(p.local), l.local);
    Cut(s, i, j, k);
    Cut(s, j, j + 1, k);
    assert s[j..j + 1] == [0x3A];
    assert PrintName(p) == Concat(p.local) && PrintName(l) == Concat(l.local);
    Assoc(Concat(p.local), [0x3A], Concat(l.local));
  }

  /** A name without prefix, from its first character on. */
  lemma TagLocalShape(enc: Encoding, s: seq<Byte>, i: nat, k: nat, colon: bool, kind: Kind, next: nat)
      returns (n: Name, j: nat)
    requires Ascii(enc) && i < k <= |s| && StartsName(enc, s[i..k]) && TagRun(enc, s, k, TagName(colon)) == Tok(kind, next)
    ensures k <= j < |s| && IsName(enc, n) && n.prefix.None? && s[i..j] == PrintName(n) && NameStep(enc, s, j) == Own
    ensures TagRun(enc, s, j, TagName(colon)) == Tok(kind, next)
  {
    var cs;
    cs, j := TagNamesShape(enc, s, k, colon, kind, next);
    n := NameOfParts(enc, s, i, k, j, cs);
  }

  lemma TagColonShape(enc: Encoding, s: seq<Byte>, i: nat, kind: Kind, next: nat) returns (j: nat)
    requires Ascii(enc) && i < |s| && s[i] == 0x3A && NameStep(enc, s, i) == Own
    requires TagRun(enc, s, i, TagName(false)) == Tok(kind, next)
    ensures i + 1 < j <= |s| && StartsName(enc, s[i + 1..j]) && TagRun(enc, s, j, TagName(true)) == Tok(kind, next)
  {
    TypeOf(enc, s[i]);
    assert TagRun(enc, s, i + 1, TagColon) == Tok(kind, next);
    CharOf(enc, s, i + 1);
    j := i + 1 + NmstrtStep(enc, s, i + 1).width;
  }

  lemma TagPrefixed(enc: Encoding, s: seq<Byte>, i: nat, c: nat, p: Name, kind: Kind, next: nat) returns (n: Name, j: nat)
    requires Ascii(enc) && i < c < |s| && s[c] == 0x3A && NameStep(enc, s, c) == Own
    requires IsName(enc, p) && p.prefix.None? && s[i..c] == PrintName(p)
    requires TagRun(enc, s, c, TagName(false)) == Tok(kind, next)
    ensures c < j < |s| && IsName(enc, n) && s[i..j] == PrintName(n) && NameStep(enc, s, j) == Own
    ensures TagRun(enc, s, j, TagName(true)) == Tok(kind, next)
  {
    var m := TagColonShape(enc, s, c, kind, next);
    var l;
    l, j := TagLocalShape(enc, s, c + 1, m, true, kind, next);
    n := NameOfBoth(enc, s, i, c, j, p, l);
  }

  /** A name from its first character on. */
  lemma TagNameShape(enc: Encoding, s: seq<Byte>, i: nat, k: nat, kind: Kind, next: nat) returns (n: Name, j: nat, colon: bool)
    requires Ascii(enc) && i < k <= |s| && StartsName(enc, s[i..k]) && TagRun(enc, s, k, TagName(false)) == Tok(kind, next)
    ensures k <= j < |s| && IsName(enc, n) && s[i..j] == PrintName(n) && TagRun(enc, s, j, TagName(colon)) == Tok(kind, next)
    ensures NameStep(enc, s, j) == Own && (s[j] == 0x3A ==> colon)
  {
    var c;
    n, c := TagLocalShape(enc, s, i, k, false, kind, next);
    colon := s[c] == 0x3A;
    if colon {
      n, j := TagPrefixed(enc, s, i, c, n, kind, next);
    } else {
      j := c;
    }
  }

  /** A name without prefix, from its first character on. */
  lemma AttLocalShape(enc: Encoding, s: seq<Byte>, i: nat, k: nat, colon: bool, kind: Kind, next: nat)
      returns (n: Name, j: nat)
    requires Ascii(enc) && i < k <= |s| && StartsName(enc, s[i..k]) && AttRun(enc, s, k, AttName(colon)) == Tok(kind, next)
    ensures k <= j < |s| && IsName(enc, n) && n.prefix.None? && s[i..j] == PrintName(n) && NameStep(enc, s, j) == Own
    ensures AttRun(enc, s, j, AttName(colon)) == Tok(kind, next)
  {
    var cs;
    cs, j := AttNamesShape(enc, s, k, colon, kind, next);
    n := NameOfParts(enc, s, i, k, j, cs);
  }

  lemma AttColonShape(enc: Encoding, s: seq<Byte>, i: nat, kind: Kind, next: nat) returns (j: nat)
    requires Ascii(enc) && i < |s| && s[i] == 0x3A && NameStep(enc, s, i) == Own
    requires AttRun(enc, s, i, AttName(false)) == Tok(kind, next)
    ensures i + 1 < j <= |s| && StartsName(enc, s[i + 1..j]) && AttRun(enc, s, j, AttName(true)) == Tok(kind, next)
  {
    TypeOf(enc, s[i]);
    assert AttRun(enc, s, i + 1, AttColon) == Tok(kind, next);
    CharOf(enc, s, i + 1);
    j := i + 1 + NmstrtStep(enc, s, i + 1).width;
  }

  lemma AttPrefixed(enc: Encoding, s: seq<Byte>, i: nat, c: nat, p: Name, kind: Kind, next: nat) returns (n: Name, j: nat)
    requires Ascii(enc) && i < c < |s| && s[c] == 0x3A && NameStep(enc, s, c) == Own
    requires IsName(enc, p) && p.prefix.None? && s[i..c] == PrintName(p)
    requires AttRun(enc, s, c, AttName(false)) == Tok(kind, next)
    ensures c < j < |s| && IsName(enc, n) && s[i..j] == PrintName(n) && NameStep(enc, s, j) == Own
    ensures AttRun(enc, s, j, AttName(true)) == Tok(kind, next)
  {
    var m := AttColonShape(enc, s, c, kind, next);
    var l;
    l, j := AttLocalShape(enc, s, c + 1, m, true, kind, next);
    n := NameOfBoth(enc, s, i, c, j, p, l);
  }

  /** A name from its first character on. */
  lemma AttNameShape(enc: Encoding, s: seq<Byte>, i: nat, k: nat, kind: Kind, next: nat) returns (n: Name, j: nat, colon: bool)
    requires Ascii(enc) && i < k <= |s| && StartsName(enc, s[i..k]) && AttRun(enc, s, k, AttName(false)) == Tok(kind, next)
    ensures k <= j < |s| && IsName(enc, n) && s[i..j] == PrintName(n) && AttRun(enc, s, j, AttName(colon)) == Tok(kind, next)
    ensures NameStep(enc, s, j) == Own && (s[j] == 0x3A ==> colon)
  {
    var c;
    n, c := AttLocalShape(enc, s, i, k, false, kind, next);
    colon := s[c] == 0x3A;
    if colon {
      n, j := AttPrefixed(enc, s, i, c, n, kind, next);
    } else {
      j := c;
    }
  }

  // ----- attributes

  lemma AttWhiteOne(enc: Encoding, s: seq<Byte>, i: nat, st: AttState, kind: Kind, next: nat)
    requires Ascii(enc) && i < |s| && White(s[i]) && !st.AttColon? && AttRun(enc, s, i, st) == Tok(kind, next)
    ensures AttRun(enc, s, i + 1, AttBehind(st)) == Tok(kind, next)
  {
    AttWhite(enc, s, i, st);
    AttWayIs(enc, s, i, st, i + 1, AttBehind(st));
  }

  lemma NotAtEnd(enc: Encoding, s: seq<Byte>, i: nat, st: AttState, kind: Kind, next: nat)
    requires i <= |s| && AttRun(enc, s, i, st) == Tok(kind, next)
    ensures i < |s|
  {
  }

  lemma {:induction false} AttSpaceShape(enc: Encoding, s: seq<Byte>, i: nat, st: AttState, kind: Kind, next: nat)
      returns (w: seq<Byte>, j: nat)
    requires Ascii(enc) && i <= |s| && AttRun(enc, s, i, st) == Tok(kind, next) && !st.AttColon? && !st.AttName?
    ensures i <= j < |s| && s[i..j] == w && AllWhite(w) && !White(s[j])
    ensures AttRun(enc, s, j, if w == [] then st else AttBehind(st)) == Tok(kind, next)
    decreases |s| - i
  {
    NotAtEnd(enc, s, i, st, kind, next);
    if White(s[i]) {
      var more;
      AttWhiteOne(enc, s, i, st, kind, next);
      more, j := AttSpaceShape(enc, s, i + 1, AttBehind(st), kind, next);
      assert AttBehind(AttBehind(st)) == AttBehind(st);
      w := [s[i]] + more;
      Cut(s, i, i + 1, j);
    } else {
      w, j := [], i;
    }
  }

  /** A value never stops the scan with a token. */
  lemma {:induction false} ValueNoToken(enc: Encoding, s: seq<Byte>, i: nat, quote: ByteType)
    requires i <= |s|
    ensures var m := ValueRun(enc, s, i, quote); m.Stop? ==> !m.t.Tok?
    decreases |s| - i
  {
    if i < |s| {
      var m := ValueStep(enc, s, i, quote);
      if m.Go? && !m.st.AttClosed? {
        ValueNoToken(enc, s, m.i, quote);
      }
    }
  }

  /** One part of a value, or its closing quote. */
  lemma PieceShape(enc: Encoding, s: seq<Byte>, i: nat, quote: Byte) returns (p: Piece)
    requires Ascii(enc) && i < |s| && (quote == 0x22 || quote == 0x27) && s[i] != quote
    requires ValueStep(enc, s, i, enc.byteType(quote)).Go?
    ensures var m := ValueStep(enc, s, i, enc.byteType(quote));
            m.st == AttOpen && IsPiece(enc, p, quote) && s[i..m.i] == PrintPiece(p)
  {
    CharOf(enc, s, i);
    TypeOf(enc, s[i]);
    TypeOf(enc, quote);
    var m := ValueStep(enc, s, i, enc.byteType(quote));
    if s[i] == 0x26 {
      var t := RefRun(enc, s, i + 1, RefFirst);
      var r := RefShape(enc, s, i + 1, t.kind, t.next);
      p := Referred(r);
      Cut(s, i, i + 1, t.next);
      Assoc([0x26], RefBody(r), [0x3B]);
    } else {
      p := Literal(s[i..m.i]);
      assert s[i..m.i][0] == s[i];
    }
  }

  lemma {:induction false} ValueShape(enc: Encoding, s: seq<Byte>, i: nat, quote: Byte, j: nat) returns (ps: seq<Piece>)
    requires Ascii(enc) && i <= |s| && (quote == 0x22 || quote == 0x27)
    requires ValueRun(enc, s, i, enc.byteType(quote)) == Go(j, AttClosed)
    ensures i < j <= |s| && ArePieces(enc, ps, quote) && s[i..j] == PrintPieces(ps) + [quote]
    decreases |s| - i
  {
    TypeOf(enc, s[i]);
    TypeOf(enc, quote);
    if s[i] == quote {
      ps := [];
      assert s[i..j] == [quote];
    } else {
      var m := ValueStep(enc, s, i, enc.byteType(quote));
      var p := PieceShape(enc, s, i, quote);
      var more := ValueShape(enc, s, m.i, quote, j);
      ps := [p] + more;
      assert ps[1..] == more;
      Cut(s, i, m.i, j);
      Assoc(PrintPiece(p), PrintPieces(more), [quote]);
    }
  }

  lemma EqualsOne(enc: Encoding, s: seq<Byte>, i: nat, st: AttState, kind: Kind, next: nat)
    requires Ascii(enc) && i < |s| && AttRun(enc, s, i, st) == Tok(kind, next)
    requires (st.AttName? && NameStep(enc, s, i) == Own && (s[i] == 0x3A ==> st.colon)) || (st.AttEquals? && !White(s[i]))
    ensures White(s[i]) ==> AttRun(enc, s, i + 1, AttEquals) == Tok(kind, next)
    ensures !White(s[i]) ==> s[i] == 0x3D && AttRun(enc, s, i + 1, AttOpen) == Tok(kind, next)
  {
    TypeOf(enc, s[i]);
  }

  lemma SpaceEquals(enc: Encoding, s: seq<Byte>, i: nat, kind: Kind, next: nat) returns (w: seq<Byte>, j: nat)
    requires Ascii(enc) && i <= |s| && AttRun(enc, s, i, AttEquals) == Tok(kind, next)
    ensures i < j <= |s| && s[i..j] == w + [0x3D] && AllWhite(w) && AttRun(enc, s, j, AttOpen) == Tok(kind, next)
  {
    var k;
    w, k := AttSpaceShape(enc, s, i, AttEquals, kind, next);
    assert (if w == [] then AttEquals else AttBehind(AttEquals)) == AttEquals;
    EqualsOne(enc, s, k, AttEquals, kind, next);
    j := k + 1;
    Cut(s, i, k, j);
  }

  /** From behind a name to behind the equals sign. */
  lemma EqualsShape(enc: Encoding, s: seq<Byte>, i: nat, colon: bool, kind: Kind, next: nat) returns (w: seq<Byte>, j: nat)
    requires Ascii(enc) && i < |s| && AttRun(enc, s, i, AttName(colon)) == Tok(kind, next)
    requires NameStep(enc, s, i) == Own && (s[i] == 0x3A ==> colon)
    ensures i < j <= |s| && s[i..j] == w + [0x3D] && AllWhite(w) && AttRun(enc, s, j, AttOpen) == Tok(kind, next)
  {
    EqualsOne(enc, s, i, AttName(colon), kind, next);
    if White(s[i]) {
      var more;
      more, j := SpaceEquals(enc, s, i + 1, kind, next);
      w := [s[i]] + more;
      Cut(s, i, i + 1, j);
      Assoc([s[i]], more, [0x3D]);
    } else {
      w, j := [], i + 1;
      assert s[i..j] == [0x3D];
    }
  }

  lemma QuoteShape(enc: Encoding, s: seq<Byte>, i: nat, kind: Kind, next: nat) returns (ps: seq<Piece>, j: nat)
    requires Ascii(enc) && i < |s| && !White(s[i]) && AttRun(enc, s, i, AttOpen) == Tok(kind, next)
    ensures i < j <= |s| && s[i..j] == [s[i]] + (PrintPieces(ps) + [s[i]])
    ensures (s[i] == 0x22 || s[i] == 0x27) && ArePieces(enc, ps, s[i])
    ensures AttRun(enc, s, j, AttClosed) == Tok(kind, next)
  {
    TypeOf(enc, s[i]);
    ValueNoToken(enc, s, i + 1, enc.byteType(s[i]));
    j := ValueRun(enc, s, i + 1, enc.byteType(s[i])).i;
    ps := ValueShape(enc, s, i + 1, s[i], j);
    Cut(s, i, i + 1, j);
  }

  /** A value in its quotes. */
  lemma QuotesShape(enc: Encoding, s: seq<Byte>, i: nat, kind: Kind, next: nat)
      returns (w: seq<Byte>, quote: Byte, ps: seq<Piece>, j: nat)
    requires Ascii(enc) && i <= |s| && AttRun(enc, s, i, AttOpen) == Tok(kind, next)
    ensures i < j <= |s| && s[i..j] == w + ([quote] + (PrintPieces(ps) + [quote])) && AllWhite(w)
    ensures (quote == 0x22 || quote == 0x27) && ArePieces(enc, ps, quote)
    ensures AttRun(enc, s, j, AttClosed) == Tok(kind, next)
  {
    var k;
    w, k := AttSpaceShape(enc, s, i, AttOpen, kind, next);
    assert (if w == [] then AttOpen else AttBehind(AttOpen)) == AttOpen;
    quote := s[k];
    ps, j := QuoteShape(enc, s, k, kind, next);
    Cut(s, i, k, j);
  }

  /** An attribute from the first character of its name on. */
  lemma AttShape(enc: Encoding, s: seq<Byte>, i: nat, k: nat, kind: Kind, next: nat, gap: seq<Byte>) returns (a: Att, j: nat)
    requires Ascii(enc) && i < k <= |s| && StartsName(enc, s[i..k]) && AttRun(enc, s, k, AttName(false)) == Tok(kind, next)
    requires gap != [] && AllWhite(gap)
    ensures i < j <= |s| && IsAtt(enc, a) && gap + s[i..j] == PrintAtt(a) && AttRun(enc, s, j, AttClosed) == Tok(kind, next)
  {
    var n, x, colon := AttNameShape(enc, s, i, k, kind, next);
    var before, y := EqualsShape(enc, s, x, colon, kind, next);
    var after, quote, ps, z := QuotesShape(enc, s, y, kind, next);
    a, j := Att.Att(gap, n, before, after, quote, ps), z;
    Cut(s, i, x, z);
    Cut(s, x, y, z);
    AttGrouped(gap, PrintName(n), before, after, quote, PrintPieces(ps));
    Assoc(before, [0x3D], after + ([quote] + (PrintPieces(ps) + [quote])));
  }

  lemma AttGrouped(gap: seq<Byte>, n: seq<Byte>, before: seq<Byte>, after: seq<Byte>, quote: Byte, ps: seq<Byte>)
    ensures gap + (n + (before + ([0x3D] + (after + ([quote] + (ps + [quote])))))) ==
            gap + n + before + [0x3D] + after + [quote] + ps + [quote]
  {
    Group6(gap, n, before, [0x3D], after, [quote], ps + [quote]);
    Assoc(gap + n + before + [0x3D] + after + [quote], ps, [quote]);
  }

  /** The end of a tag. */
  lemma CloseShape(enc: Encoding, s: seq<Byte>, i: nat, st: AttState, kind: Kind, next: nat) returns (empty: bool)
    requires Ascii(enc) && i < |s| && AttRun(enc, s, i, st) == Tok(kind, next) && (st.AttClosed? || st.AttGap?)
    requires !White(s[i]) && (st.AttGap? ==> !NmstrtStep(enc, s, i).Skip?)
    ensures i < next <= |s| && s[i..next] == Close(empty) && kind == (if empty then EmptyWithAtts else StartWithAtts)
  {
    TypeOf(enc, s[i]);
    empty := s[i] == 0x2F;
    assert s[i..next] == Close(empty);
  }

  lemma AttGapOne(enc: Encoding, s: seq<Byte>, i: nat, kind: Kind, next: nat) returns (named: bool, k: nat)
    requires i < |s| && AttRun(enc, s, i, AttGap) == Tok(kind, next)
    ensures named == NmstrtStep(enc, s, i).Skip?
    ensures named ==> i < k <= |s| && StartsName(enc, s[i..k]) && AttRun(enc, s, k, AttName(false)) == Tok(kind, next)
  {
    CharOf(enc, s, i);
    var c := NmstrtStep(enc, s, i);
    named, k := c.Skip?, if c.Skip? then i + c.width else i;
  }

  /** White space and the end of a tag, or another attribute. */
  lemma AttsTurn(enc: Encoding, s: seq<Byte>, i: nat, kind: Kind, next: nat)
      returns (last: bool, w: seq<Byte>, empty: bool, a: Option<Att>, j: nat)
    requires Ascii(enc) && i <= |s| && AttRun(enc, s, i, AttClosed) == Tok(kind, next)
    ensures last ==> i < next <= |s| && s[i..next] == w + Close(empty) && AllWhite(w)
    ensures last ==> kind == (if empty then EmptyWithAtts else StartWithAtts)
    ensures !last ==> a.Some? && i < j <= |s| && s[i..j] == PrintAtt(a.value) && IsAtt(enc, a.value) == true
    ensures !last ==> AttRun(enc, s, j, AttClosed) == Tok(kind, next)
  {
    var k;
    w, k := AttSpaceShape(enc, s, i, AttClosed, kind, next);
    last, empty, a, j := true, false, None, k;
    if w == [] {
      empty := CloseShape(enc, s, k, AttClosed, kind, next);
      Cut(s, i, k, next);
    } else {
      var named, x := AttGapOne(enc, s, k, kind, next);
      if named {
        var att;
        att, j := AttShape(enc, s, k, x, kind, next, w);
        last, a := false, Some(att);
        Cut(s, i, k, j);
      } else {
        empty := CloseShape(enc, s, k, AttGap, kind, next);
        Cut(s, i, k, next);
      }
    }
  }

  lemma {:induction false} AttsShape(enc: Encoding, s: seq<Byte>, i: nat, kind: Kind, next: nat)
      returns (atts: seq<Att>, w: seq<Byte>, empty: bool)
    requires Ascii(enc) && i <= |s| && AttRun(enc, s, i, AttClosed) == Tok(kind, next)
    ensures i < next <= |s| && s[i..next] == PrintAtts(atts) + (w + Close(empty)) && AreAtts(enc, atts) && AllWhite(w)
    ensures kind == (if empty then EmptyWithAtts else StartWithAtts)
    decreases |s| - i
  {
    var last, space, shut, a, j := AttsTurn(enc, s, i, kind, next);
    if last {
      atts, w, empty := [], space, shut;
      assert PrintAtts(atts) + (w + Close(empty)) == w + Close(empty);
    } else {
      var more;
      more, w, empty := AttsShape(enc, s, j, kind, next);
      AttsBefore(enc, s, i, j, next, a.value, more, w + Close(empty));
      atts := [a.value] + more;
    }
  }

  lemma AttsBefore(enc: Encoding, s: seq<Byte>, i: nat, j: nat, next: nat, a: Att, atts: seq<Att>, end: seq<Byte>)
    requires i <= j <= next <= |s| && IsAtt(enc, a) && AreAtts(enc, atts)
    requires s[i..j] == PrintAtt(a) && s[j..next] == PrintAtts(atts) + end
    ensures AreAtts(enc, [a] + atts) && s[i..next] == PrintAtts([a] + atts) + end
  {
    Cut(s, i, j, next);
    AttsOnto(enc, a, atts, end);
  }

  // ----- tags

  lemma {:induction false} TagSpaceShape(enc: Encoding, s: seq<Byte>, i: nat, kind: Kind, next: nat) returns (w: seq<Byte>, j: nat)
    requires Ascii(enc) && i <= |s| && TagRun(enc, s, i, TagGap) == Tok(kind, next)
    ensures i <= j < |s| && s[i..j] == w && AllWhite(w) && !White(s[j]) && TagRun(enc, s, j, TagGap) == Tok(kind, next)
    decreases |s| - i
  {
    TypeOf(enc, s[i]);
    if White(s[i]) {
      NoName(enc, s, i);
      var more;
      more, j := TagSpaceShape(enc, s, i + 1, kind, next);
      w := [s[i]] + more;
      Cut(s, i, i + 1, j);
    } else {
      w, j := [], i;
    }
  }

  lemma TagCloseShape(enc: Encoding, s: seq<Byte>, i: nat, st: TagState, kind: Kind, next: nat) returns (empty: bool)
    requires Ascii(enc) && i < |s| && TagRun(enc, s, i, st) == Tok(kind, next) && !White(s[i])
    requires (st.TagGap? && !NmstrtStep(enc, s, i).Skip?) ||
             (st.TagName? && NameStep(enc, s, i) == Own && (s[i] == 0x3A ==> st.colon))
    ensures i < next <= |s| && s[i..next] == Close(empty) && kind == (if empty then EmptyNoAtts else StartNoAtts)
  {
    TypeOf(enc, s[i]);
    empty := s[i] == 0x2F;
    assert s[i..next] == Close(empty);
  }

  /** Attributes behind the white space `gap`. */
  lemma TagAttsShape(enc: Encoding, s: seq<Byte>, i: nat, k: nat, gap: seq<Byte>, kind: Kind, next: nat)
      returns (atts: seq<Att>, w: seq<Byte>, empty: bool)
    requires Ascii(enc) && i < k <= |s| && StartsName(enc, s[i..k]) && AttRun(enc, s, k, AttName(false)) == Tok(kind, next)
    requires gap != [] && AllWhite(gap)
    ensures i < next <= |s| && gap + s[i..next] == PrintAtts(atts) + (w + Close(empty)) && AreAtts(enc, atts) && AllWhite(w)
    ensures atts != [] && kind == (if empty then EmptyWithAtts else StartWithAtts)
  {
    var a, j := AttShape(enc, s, i, k, kind, next, gap);
    var more;
    more, w, empty := AttsShape(enc, s, j, kind, next);
    Cut(s, i, j, next);
    Assoc(gap, s[i..j], s[j..next]);
    AttsOnto(enc, a, more, w + Close(empty));
    atts := [a] + more;
  }

  lemma AttsOnto(enc: Encoding, a: Att, atts: seq<Att>, end: seq<Byte>)
    requires IsAtt(enc, a) && AreAtts(enc, atts)
    ensures AreAtts(enc, [a] + atts) && PrintAtts([a] + atts) + end == PrintAtt(a) + (PrintAtts(atts) + end)
  {
    assert ([a] + atts)[1..] == atts;
    Assoc(PrintAtt(a), PrintAtts(atts), end);
    forall k | 0 <= k < |atts|
      ensures ([a] + atts)[k + 1] == atts[k]
    {
    }
  }

  lemma GapOne(enc: Encoding, s: seq<Byte>, i: nat, kind: Kind, next: nat) returns (named: bool, k: nat)
    requires i < |s| && TagRun(enc, s, i, TagGap) == Tok(kind, next)
    ensures named == NmstrtStep(enc, s, i).Skip?
    ensures named ==> i < k <= |s| && StartsName(enc, s[i..k]) && AttRun(enc, s, k, AttName(false)) == Tok(kind, next)
  {
    CharOf(enc, s, i);
    var c := NmstrtStep(enc, s, i);
    named, k := c.Skip?, if c.Skip? then i + c.width else i;
  }

  /** A tag behind white space behind its name: the end, or attributes. */
  lemma TagGapShape(enc: Encoding, s: seq<Byte>, i: nat, gap: seq<Byte>, kind: Kind, next: nat)
      returns (atts: seq<Att>, w: seq<Byte>, empty: bool)
    requires Ascii(enc) && i < |s| && !White(s[i]) && TagRun(enc, s, i, TagGap) == Tok(kind, next)
    requires gap != [] && AllWhite(gap)
    ensures i < next <= |s| && gap + s[i..next] == PrintAtts(atts) + (w + Close(empty)) && AreAtts(enc, atts) && AllWhite(w)
    ensures kind == if atts == [] then (if empty then EmptyNoAtts else StartNoAtts)
                    else if empty then EmptyWithAtts else StartWithAtts
  {
    var named, k := GapOne(enc, s, i, kind, next);
    if named {
      atts, w, empty := TagAttsShape(enc, s, i, k, gap, kind, next);
    } else {
      atts, w := [], gap;
      empty := TagCloseShape(enc, s, i, TagGap, kind, next);
      assert PrintAtts(atts) + (w + Close(empty)) == w + Close(empty);
    }
  }

  lemma TagWhiteOne(enc: Encoding, s: seq<Byte>, i: nat, colon: bool, kind: Kind, next: nat)
    requires Ascii(enc) && i < |s| && TagRun(enc, s, i, TagName(colon)) == Tok(kind, next)
    requires NameStep(enc, s, i) == Own && White(s[i])
    ensures TagRun(enc, s, i + 1, TagGap) == Tok(kind, next)
  {
    TypeOf(enc, s[i]);
  }

  lemma TagWhiteShape(enc: Encoding, s: seq<Byte>, i: nat, colon: bool, kind: Kind, next: nat) returns (w: seq<Byte>, j: nat)
    requires Ascii(enc) && i < |s| && TagRun(enc, s, i, TagName(colon)) == Tok(kind, next)
    requires NameStep(enc, s, i) == Own && White(s[i])
    ensures i < j < |s| && s[i..j] == w && w != [] && AllWhite(w) && !White(s[j])
    ensures TagRun(enc, s, j, TagGap) == Tok(kind, next)
  {
    var more;
    TagWhiteOne(enc, s, i, colon, kind, next);
    more, j := TagSpaceShape(enc, s, i + 1, kind, next);
    w := [s[i]] + more;
    Cut(s, i, i + 1, j);
  }

  /** A tag behind its name. */
  lemma TagRestShape(enc: Encoding, s: seq<Byte>, i: nat, colon: bool, kind: Kind, next: nat)
      returns (atts: seq<Att>, w: seq<Byte>, empty: bool)
    requires Ascii(enc) && i < |s| && TagRun(enc, s, i, TagName(colon)) == Tok(kind, next)
    requires NameStep(enc, s, i) == Own && (s[i] == 0x3A ==> colon)
    ensures i < next <= |s| && s[i..next] == PrintAtts(atts) + (w + Close(empty)) && AreAtts(enc, atts) && AllWhite(w)
    ensures kind == if atts == [] then (if empty then EmptyNoAtts else StartNoAtts)
                    else if empty then EmptyWithAtts else StartWithAtts
  {
    if White(s[i]) {
      var space, j := TagWhiteShape(enc, s, i, colon, kind, next);
      atts, w, empty := TagGapShape(enc, s, j, space, kind, next);
      Cut(s, i, j, next);
    } else {
      atts, w := [], [];
      empty := TagCloseShape(enc, s, i, TagName(colon), kind, next);
      assert PrintAtts(atts) + (w + Close(empty)) == Close(empty);
    }
  }

  /** A start or empty-element tag that is accepted. */
  lemma TagShape(enc: Encoding, s: seq<Byte>, kind: Kind, next: nat) returns (t: Tag, empty: bool)
    requires Ascii(enc) && |s| > 1 && s[0] == 0x3C && NmstrtStep(enc, s, 1).Skip?
    requires TagRun(enc, s, 1 + NmstrtStep(enc, s, 1).width, TagName(false)) == Tok(kind, next)
    ensures next <= |s| && IsTag(enc, t) && s[..next] == PrintTag(t, empty) && kind == TagKind(t, empty)
  {
    CharOf(enc, s, 1);
    var n, j, colon := TagNameShape(enc, s, 1, 1 + NmstrtStep(enc, s, 1).width, kind, next);
    var atts, w;
    atts, w, empty := TagRestShape(enc, s, j, colon, kind, next);
    t := Tag.Tag(n, atts, w);
    Cut(s, 0, 1, next);
    Cut(s, 1, j, next);
    Group4([0x3C], PrintName(n), PrintAtts(atts), w, Close(empty));
    assert s[..next] == s[0..next] && s[0..1] == [0x3C];
  }

  // ----- end tags

  lemma {:induction false} EndSpaceShape(enc: Encoding, s: seq<Byte>, i: nat, kind: Kind, next: nat) returns (w: seq<Byte>)
    requires Ascii(enc) && i <= |s| && EndRun(enc, s, i, EndGap) == Tok(kind, next)
    ensures kind == EndTag && i < next <= |s| && s[i..next] == w + [0x3E] && AllWhite(w)
    decreases |s| - i
  {
    TypeOf(enc, s[i]);
    if White(s[i]) {
      var more := EndSpaceShape(enc, s, i + 1, kind, next);
      w := [s[i]] + more;
      Cut(s, i, i + 1, next);
      Assoc([s[i]], more, [0x3E]);
    } else {
      w := [];
      assert s[i..next] == [0x3E];
    }
  }

  /** The byte behind the name. */
  lemma EndStop(enc: Encoding, s: seq<Byte>, i: nat, kind: Kind, next: nat) returns (w: seq<Byte>)
    requires Ascii(enc) && i < |s| && EndRun(enc, s, i, EndName) == Tok(kind, next)
    requires NameStep(enc, s, i) == Own && s[i] != 0x3A
    ensures kind == EndTag && i < next <= |s| && s[i..next] == w + [0x3E] && AllWhite(w)
    ensures NameEnd(enc, s[..next], i) == i
  {
    TypeOf(enc, s[i]);
    if White(s[i]) {
      var more := EndSpaceShape(enc, s, i + 1, kind, next);
      w := [s[i]] + more;
      Cut(s, i, i + 1, next);
      Assoc([s[i]], more, [0x3E]);
    } else {
      w := [];
      assert s[i..next] == [0x3E];
    }
    assert s[..next][i] == s[i];
  }

  /** One character of the name, for the scan and for the raw name alike. */
  lemma EndOne(enc: Encoding, s: seq<Byte>, i: nat, kind: Kind, next: nat) returns (last: bool, j: nat)
    requires Ascii(enc) && i <= |s| && EndRun(enc, s, i, EndName) == Tok(kind, next)
    ensures i < |s| && (last ==> NameStep(enc, s, i) == Own && s[i] != 0x3A)
    ensures !last ==> i < j <= |s| && EndRun(enc, s, j, EndName) == Tok(kind, next)
    ensures !last && j < next <= |s| ==> NameEnd(enc, s[..next], i) == NameEnd(enc, s[..next], j)
  {
    CharOf(enc, s, i);
    TypeOf(enc, s[i]);
    var c := NameStep(enc, s, i);
    last := !c.Skip? && s[i] != 0x3A;
    j := if c.Skip? then i + c.width else i + 1;
    if i < next <= |s| {
      assert s[..next][i] == s[i];
    }
  }

  /** The name in an end tag ends where the raw name does. */
  lemma {:induction false} EndShape(enc: Encoding, s: seq<Byte>, i: nat, kind: Kind, next: nat) returns (j: nat, w: seq<Byte>)
    requires Ascii(enc) && i <= |s| && EndRun(enc, s, i, EndName) == Tok(kind, next)
    ensures kind == EndTag && i <= j < next <= |s| && s[j..next] == w + [0x3E] && AllWhite(w)
    ensures NameEnd(enc, s[..next], i) == j
    decreases |s| - i
  {
    var last, k := EndOne(enc, s, i, kind, next);
    if last {
      j := i;
      w := EndStop(enc, s, i, kind, next);
    } else {
      j, w := EndShape(enc, s, k, kind, next);
    }
  }

  /** An end tag that is accepted. */
  lemma EndTagShape(enc: Encoding, s: seq<Byte>, kind: Kind, next: nat) returns (w: seq<Byte>)
    requires Ascii(enc) && |s| > 1 && s[0] == 0x3C && s[1] == 0x2F && EndRun(enc, s, 2, EndFirst) == Tok(kind, next)
    ensures kind == EndTag && next <= |s| && AllWhite(w)
    ensures s[..next] == [0x3C, 0x2F] + RawName(enc, s[..next], 2) + w + [0x3E]
  {
    CharOf(enc, s, 2);
    TypeOf(enc, s[2]);
    var u, k := s[..next], 2 + NmstrtStep(enc, s, 2).width;
    assert EndRun(enc, s, k, EndName) == Tok(kind, next);
    var j;
    j, w := EndShape(enc, s, k, kind, next);
    assert u[2] == s[2];
    assert NameEnd(enc, u, 2) == NameEnd(enc, u, k);
    assert u[2..j] == s[2..j] == RawName(enc, u, 2);
    Cut(s, 0, 2, next);
    Cut(s, 2, j, next);
    Assoc(s[2..j], w, [0x3E]);
    assert s[0..2] == [0x3C, 0x2F] && s[..next] == s[0..next];
    Assoc([0x3C, 0x2F], s[2..j] + w, [0x3E]);
    Assoc([0x3C, 0x2F], s[2..j], w);
  }
}
