/** Attribute values (expat/xmlparse.c:4701-4863, expat/xmltok_impl.c:1199-1255,
    1520-1610): what a value means, by recursive expansion of its references. */
module AttValue {
  import opened Endian
  import opened Unicode
  import opened XmlBytes
  import opened XmlScan

  datatype Error =
    | InvalidToken | UnexpectedState | BadCharRef | UndefinedEntity | EntityDeclaredInPe
    | RecursiveEntityRef | BinaryEntityRef | ExternalEntityRef

  datatype Result = Ok(text: seq<Byte>) | Fail(error: Error)

  /** A declared entity: its replacement text if it is an internal one. */
  datatype Ent = Ent(hasText: bool, text: seq<Byte>, notation: bool, isInternal: bool)

  /** The declarations, and whether a reference to an undeclared entity is an error. */
  datatype Env = Env(enc: Encoding, ents: map<seq<Byte>, Ent>, checkDecl: bool)

  const SPACE: Byte := 0x20

  /** What the proofs need of the table of byte types (expat/asciitab.h). */
  ghost predicate AsciiTable(enc: Encoding) {
    enc.byteType(SPACE).S? &&
    forall b ::
      (enc.byteType(b).Digit? ==> 0x30 <= b <= 0x39) &&
      (enc.byteType(b).Hex? ==> 0x41 <= b <= 0x46 || 0x61 <= b <= 0x66) &&
      (enc.byteType(b).Semi? <==> b == 0x3B)
  }

  /** The bytes of the first character. */
  function CharLen(enc: Encoding, s: seq<Byte>): (n: nat)
    requires s != []
    ensures 1 <= n <= |s|
  {
    var t := enc.byteType(s[0]);
    if IsLead(t) && LeadWidth(t) <= |s| then LeadWidth(t) else 1
  }

  /** Outside references, which are checked when they are read, no character is cut off
      and no byte inside a character is a space. */
  predicate Whole(enc: Encoding, s: seq<Byte>)
    decreases |s|
  {
    if s == [] then true
    else
      var t := enc.byteType(s[0]);
      if t.Amp? then
        match RefRun(enc, s, 1, RefFirst)
        case Tok(_, next) => Whole(enc, s[next..])
        case _ => true
      else
        var n := CharLen(enc, s);
        (IsLead(t) ==> LeadWidth(t) <= |s|) && SPACE !in s[1..n] && Whole(enc, s[n..])
  }

  // ----- character references

  function DigitOf(b: Byte): int {
    if 0x30 <= b <= 0x39 then b - 0x30
    else if 0x41 <= b <= 0x46 then 10 + b - 0x41
    else if 0x61 <= b <= 0x66 then 10 + b - 0x61
    else 0
  }

  /** The number that a sequence of digits stands for. */
  function Value(digits: seq<Byte>, base: nat): (n: nat)
    requires base == 10 || base == 16
  {
    if digits == [] then 0
    else
      var k := |digits| - 1;
      base * Value(digits[..k], base) + DigitOf(digits[k])
  }

  /** Production [2] of XML 1.0, `Char`. */
  predicate IsChar(n: int) {
    n == 0x9 || n == 0xA || n == 0xD || 0x20 <= n <= 0xD7FF || 0xE000 <= n <= 0xFFFD || 0x1_0000 <= n <= 0x10_FFFF
  }

  /** `checkCharRefNumber`, which goes by the high byte; -1 for what is no character. */
  function CheckCharRefNumber(n: nat): (r: int)
    requires n < 0x11_0000
    ensures r == if IsChar(n) then n else -1
  {
    if 0xD8 <= n / 0x100 <= 0xDF then -1
    else if n / 0x100 == 0 && n < 0x20 && n != 0x9 && n != 0xA && n != 0xD then -1
    else if n / 0x100 == 0xFF && (n == 0xFFFE || n == 0xFFFF) then -1
    else n
  }

  /** The digits of the character reference that is the whole of `tok`. */
  function RefDigits(tok: seq<Byte>): (r: (seq<Byte>, nat))
    requires |tok| >= 4
    ensures r.1 == 10 || r.1 == 16
  {
    if tok[2] == 0x78 then (tok[3..|tok| - 1], 16) else (tok[2..|tok| - 1], 10)
  }

  function CharRefNumber(tok: seq<Byte>): nat
    requires |tok| >= 4
  {
    Value(RefDigits(tok).0, RefDigits(tok).1)
  }

  /** The bytes that a character reference stands for. */
  function CharRefText(tok: seq<Byte>): Result {
    if |tok| < 4 || !IsChar(CharRefNumber(tok)) then Fail(BadCharRef) else Ok(Encode8(CharRefNumber(tok)))
  }

  /** `predefinedEntityName`: the character, or 0. */
  function Predefined(name: seq<Byte>): (c: Byte)
    ensures c != SPACE
  {
    if name == [0x6C, 0x74] then 0x3C
    else if name == [0x67, 0x74] then 0x3E
    else if name == [0x61, 0x6D, 0x70] then 0x26
    else if name == [0x71, 0x75, 0x6F, 0x74] then 0x22
    else if name == [0x61, 0x70, 0x6F, 0x73] then 0x27
    else 0
  }

  // ----- what a value means

  /** `a`, then `b`: the first error, or the texts one behind the other. */
  function Before(a: Result, b: Result): Result {
    if a.Fail? then a else if b.Fail? then b else Ok(a.text + b.text)
  }

  /** The white space at the start: a CR LF pair is one line end if `fold`. */
  function SpaceLen(enc: Encoding, s: seq<Byte>, fold: bool): (n: nat)
    requires s != []
    ensures 1 <= n <= |s|
  {
    if fold && enc.byteType(s[0]).Cr? && |s| > 1 && enc.byteType(s[1]).Lf? then 2 else 1
  }

  /** The value that `s` denotes while the entities `open` are being expanded: references
      replaced, white space turned into spaces. Line ends of two bytes count as one in
      `s` if `fold`, and in the texts of entities if `deep`. */
  function Expand(e: Env, open: set<seq<Byte>>, s: seq<Byte>, fold: bool, deep: bool): (r: Result)
    decreases e.ents.Keys - open, |s|, 1
  {
    if s == [] then Ok([])
    else
      var t := e.enc.byteType(s[0]);
      if t.Lt? then Fail(InvalidToken)
      else if t.Amp? then
        match RefRun(e.enc, s, 1, RefFirst)
        case Tok(kind, next) => Before(Reference(e, open, s[..next], kind, deep), Expand(e, open, s[next..], fold, deep))
        case PartialChar => Fail(UnexpectedState)
        case _ => Fail(InvalidToken)
      else if IsSpace(t) then Before(Ok([SPACE]), Expand(e, open, s[SpaceLen(e.enc, s, fold)..], fold, deep))
      else
        var n := CharLen(e.enc, s);
        Before(Ok(s[..n]), Expand(e, open, s[n..], fold, deep))
  }

  /** The reference that is the whole of `tok`. An entity that is open already is not
      expanded again. */
  function Reference(e: Env, open: set<seq<Byte>>, tok: seq<Byte>, kind: Kind, deep: bool): (r: Result)
    decreases e.ents.Keys - open, |tok|, 0
  {
    if kind.CharRef? then CharRefText(tok)
    else if |tok| < 2 then Fail(InvalidToken)
    else
      var name := tok[1..|tok| - 1];
      if Predefined(name) != 0 then Ok([Predefined(name)])
      else if name !in e.ents then (if e.checkDecl then Fail(UndefinedEntity) else Ok([]))
      else
        var x := e.ents[name];
        if e.checkDecl && !x.isInternal then Fail(EntityDeclaredInPe)
        else if name in open then Fail(RecursiveEntityRef)
        else if x.notation then Fail(BinaryEntityRef)
        else if !x.hasText then Fail(ExternalEntityRef)
        else
          assert name in e.ents.Keys - open && name !in e.ents.Keys - (open + {name});
          Expand(e, open + {name}, x.text, deep, deep)
  }

  // ----- tokenized values: no space at either end, single spaces between words

  /** The words that `v` adds behind the unfinished word `cur`. */
  function WordsFrom(cur: seq<Byte>, v: seq<Byte>): seq<seq<Byte>>
    decreases |v|
  {
    var done := if cur == [] then [] else [cur];
    if v == [] then done
    else if v[0] == SPACE then done + WordsFrom([], v[1..])
    else WordsFrom(cur + [v[0]], v[1..])
  }

  function Words(v: seq<Byte>): seq<seq<Byte>> { WordsFrom([], v) }

  function Joined(ws: seq<seq<Byte>>): seq<Byte> {
    if ws == [] then []
    else if |ws| == 1 then ws[0]
    else Joined(ws[..|ws| - 1]) + [SPACE] + ws[|ws| - 1]
  }

  /** What section 3.3.3 of XML 1.0 asks of a value once it is expanded. */
  function Normalized(isCdata: bool, v: seq<Byte>): seq<Byte> { if isCdata then v else Joined(Words(v)) }

  /** The one-pass form: a space is not stored at the start or behind a space. */
  function Put(isCdata: bool, pool: seq<Byte>, b: Byte): seq<Byte> {
    if !isCdata && b == SPACE && (pool == [] || pool[|pool| - 1] == SPACE) then pool else pool + [b]
  }

  function PutAll(isCdata: bool, pool: seq<Byte>, v: seq<Byte>): seq<Byte>
    decreases |v|
  {
    if v == [] then pool else PutAll(isCdata, Put(isCdata, pool, v[0]), v[1..])
  }

  /** A trailing space is taken off again. */
  function Chop(isCdata: bool, pool: seq<Byte>): seq<Byte> {
    if !isCdata && pool != [] && pool[|pool| - 1] == SPACE then pool[..|pool| - 1] else pool
  }

  lemma {:induction false} PutAllConcat(isCdata: bool, pool: seq<Byte>, a: seq<Byte>, b: seq<Byte>)
    ensures PutAll(isCdata, pool, a + b) == PutAll(isCdata, PutAll(isCdata, pool, a), b)
    decreases |a|
  {
    if a == [] {
      assert a + b == b;
    } else {
      assert (a + b)[0] == a[0] && (a + b)[1..] == a[1..] + b;
      PutAllConcat(isCdata, Put(isCdata, pool, a[0]), a[1..], b);
    }
  }

  /** Bytes among which there is no space are stored as they are. */
  lemma {:induction false} PutPlain(isCdata: bool, pool: seq<Byte>, v: seq<Byte>)
    requires isCdata || SPACE !in v
    ensures PutAll(isCdata, pool, v) == pool + v
    decreases |v|
  {
    if v == [] {
      assert pool + v == pool;
    } else {
      PutPlain(isCdata, pool + [v[0]], v[1..]);
      assert (pool + [v[0]]) + v[1..] == pool + v;
    }
  }

  /** The stored bytes when the words `ws` are complete and `cur` is unfinished. */
  function Stored(ws: seq<seq<Byte>>, cur: seq<Byte>): seq<Byte> {
    if cur != [] then Joined(ws + [cur]) else if ws == [] then [] else Joined(ws) + [SPACE]
  }

  lemma StoredNext(ws: seq<seq<Byte>>, cur: seq<Byte>, b: Byte)
    requires SPACE !in cur
    ensures b != SPACE ==> Put(false, Stored(ws, cur), b) == Stored(ws, cur + [b])
    ensures b == SPACE ==> Put(false, Stored(ws, cur), b) == Stored(if cur == [] then ws else ws + [cur], [])
    ensures Chop(false, Stored(ws, cur)) == Joined(if cur == [] then ws else ws + [cur])
  {
    var all := ws + [cur];
    assert all[..|all| - 1] == ws;
    var more := ws + [cur + [b]];
    assert more[..|more| - 1] == ws;
    if cur != [] {
      var p := Stored(ws, cur);
      assert p != [] && p[|p| - 1] == cur[|cur| - 1];
    }
  }

  /** One pass stores what splitting into words and joining them gives. */
  lemma {:induction false} OnePass(ws: seq<seq<Byte>>, cur: seq<Byte>, v: seq<Byte>)
    requires SPACE !in cur
    ensures Chop(false, PutAll(false, Stored(ws, cur), v)) == Joined(ws + WordsFrom(cur, v))
    decreases |v|
  {
    var next := if cur == [] then ws else ws + [cur];
    assert ws + (if cur == [] then [] else [cur]) == next;
    if v == [] {
      StoredNext(ws, cur, SPACE);
    } else if v[0] == SPACE {
      OnePass(next, [], v[1..]);
      assert Put(false, Stored(ws, cur), v[0]) == Stored(next, []) by { StoredNext(ws, cur, v[0]); }
      assert ws + WordsFrom(cur, v) == next + WordsFrom([], v[1..]) by {
        WordsSpace(ws, cur, v);
      }
    } else {
      OnePass(ws, cur + [v[0]], v[1..]);
      assert Put(false, Stored(ws, cur), v[0]) == Stored(ws, cur + [v[0]]) by { StoredNext(ws, cur, v[0]); }
    }
  }

  lemma WordsSpace(ws: seq<seq<Byte>>, cur: seq<Byte>, v: seq<Byte>)
    requires v != [] && v[0] == SPACE
    ensures ws + WordsFrom(cur, v) == (if cur == [] then ws else ws + [cur]) + WordsFrom([], v[1..])
  {
    if cur != [] {
      assert ws + ([cur] + WordsFrom([], v[1..])) == (ws + [cur]) + WordsFrom([], v[1..]);
    } else {
      assert [] + WordsFrom([], v[1..]) == WordsFrom([], v[1..]);
    }
  }

  /** Storing in one pass and chopping is normalizing. */
  lemma StoredIsNormalized(isCdata: bool, v: seq<Byte>)
    ensures Chop(isCdata, PutAll(isCdata, [], v)) == Normalized(isCdata, v)
  {
    if isCdata {
      PutPlain(true, [], v);
    } else {
      OnePass([], [], v);
      assert [] + WordsFrom([], v) == Words(v);
    }
  }

  // ----- recursion

  /** The entities that a text refers to by name. */
  function Names(e: Env, s: seq<Byte>): set<seq<Byte>>
    decreases |s|
  {
    if s == [] then {}
    else
      var t := e.enc.byteType(s[0]);
      if t.Amp? then
        match RefRun(e.enc, s, 1, RefFirst)
        case Tok(kind, next) =>
          (if kind.CharRef? || Predefined(s[1..next - 1]) != 0 then {} else {s[1..next - 1]}) + Names(e, s[next..])
        case _ => {}
      else Names(e, s[if IsSpace(t) then 1 else CharLen(e.enc, s)..])
  }

  /** A chain of references: the first name occurs in `s`, each further one in the text of
      the entity before it; all of them are declared. */
  predicate Leads(e: Env, s: seq<Byte>, path: seq<seq<Byte>>)
    decreases |path|
  {
    path != [] && path[0] in Names(e, s) && path[0] in e.ents &&
    (|path| > 1 ==> Leads(e, e.ents[path[0]].text, path[1..]))
  }

  lemma NamesSpace(e: Env, s: seq<Byte>, fold: bool)
    requires s != [] && IsSpace(e.enc.byteType(s[0]))
    ensures Names(e, s) == Names(e, s[SpaceLen(e.enc, s, fold)..])
  {
    if SpaceLen(e.enc, s, fold) == 2 {
      assert s[1..][0] == s[1] && s[1..][1..] == s[2..];
    }
  }

  /** A value that expands has expanded each entity it refers to. */
  lemma {:induction false} NameExpanded(e: Env, open: set<seq<Byte>>, s: seq<Byte>, fold: bool, deep: bool, name: seq<Byte>)
    requires Expand(e, open, s, fold, deep).Ok? && name in Names(e, s) && name in e.ents
    ensures name !in open && Expand(e, open + {name}, e.ents[name].text, deep, deep).Ok?
    decreases |s|
  {
    var t := e.enc.byteType(s[0]);
    if t.Amp? {
      var r := RefRun(e.enc, s, 1, RefFirst);
      var tok := s[..r.next];
      assert tok[1..|tok| - 1] == s[1..r.next - 1];
      if name in Names(e, s[r.next..]) {
        NameExpanded(e, open, s[r.next..], fold, deep, name);
      }
    } else if IsSpace(t) {
      NamesSpace(e, s, fold);
      NameExpanded(e, open, s[SpaceLen(e.enc, s, fold)..], fold, deep, name);
    } else {
      NameExpanded(e, open, s[CharLen(e.enc, s)..], fold, deep, name);
    }
  }

  /** No chain of references in a value that expands leads to an entity that is open. */
  lemma {:induction false} NoneOpen(e: Env, open: set<seq<Byte>>, s: seq<Byte>, fold: bool, deep: bool, path: seq<seq<Byte>>)
    requires Expand(e, open, s, fold, deep).Ok? && Leads(e, s, path)
    ensures path[|path| - 1] !in open
    decreases |path|
  {
    NameExpanded(e, open, s, fold, deep, path[0]);
    if |path| > 1 {
      NoneOpen(e, open + {path[0]}, e.ents[path[0]].text, deep, deep, path[1..]);
    }
  }

  /** Recursion is always reported: a value from which some chain of references passes
      through the same entity twice does not expand. */
  lemma {:induction false} RecursionFails(e: Env, open: set<seq<Byte>>, s: seq<Byte>, fold: bool, deep: bool, path: seq<seq<Byte>>, i: nat)
    requires Leads(e, s, path) && i < |path| - 1 && path[i] == path[|path| - 1]
    ensures Expand(e, open, s, fold, deep).Fail?
    decreases |path|
  {
    if Expand(e, open, s, fold, deep).Ok? {
      NameExpanded(e, open, s, fold, deep, path[0]);
      if i == 0 {
        NoneOpen(e, open + {path[0]}, e.ents[path[0]].text, deep, deep, path[1..]);
      } else {
        RecursionFails(e, open + {path[0]}, e.ents[path[0]].text, deep, deep, path[1..], i - 1);
      }
    }
  }

  /** And only recursion is reported as such: there is a chain of references to an entity
      that is open or that the chain has passed before. */
  lemma {:induction false} RecursionIs(e: Env, open: set<seq<Byte>>, s: seq<Byte>, fold: bool, deep: bool)
    returns (path: seq<seq<Byte>>)
    requires Expand(e, open, s, fold, deep) == Fail(RecursiveEntityRef)
    ensures Leads(e, s, path)
    ensures path[|path| - 1] in open || path[|path| - 1] in path[..|path| - 1]
    decreases e.ents.Keys - open, |s|, 1
  {
    var t := e.enc.byteType(s[0]);
    if t.Amp? {
      var r := RefRun(e.enc, s, 1, RefFirst);
      var tok := s[..r.next];
      if Reference(e, open, tok, r.kind, deep).Ok? {
        path := RecursionIs(e, open, s[r.next..], fold, deep);
      } else {
        path := ReferenceIs(e, open, s, r.next, r.kind, deep);
      }
    } else if IsSpace(t) {
      NamesSpace(e, s, fold);
      path := RecursionIs(e, open, s[SpaceLen(e.enc, s, fold)..], fold, deep);
    } else {
      path := RecursionIs(e, open, s[CharLen(e.enc, s)..], fold, deep);
    }
  }

  lemma {:induction false} ReferenceIs(e: Env, open: set<seq<Byte>>, s: seq<Byte>, next: nat, kind: Kind, deep: bool)
    returns (path: seq<seq<Byte>>)
    requires s != [] && e.enc.byteType(s[0]).Amp? && RefRun(e.enc, s, 1, RefFirst) == Tok(kind, next) && next <= |s|
    requires Reference(e, open, s[..next], kind, deep) == Fail(RecursiveEntityRef)
    ensures Leads(e, s, path)
    ensures path[|path| - 1] in open || path[|path| - 1] in path[..|path| - 1]
    decreases e.ents.Keys - open, next, 0
  {
    var tok := s[..next];
    var name := tok[1..|tok| - 1];
    assert name == s[1..next - 1];
    if name in open {
      path := [name];
    } else {
      assert name in e.ents.Keys - open && name !in e.ents.Keys - (open + {name});
      var deeper := RecursionIs(e, open + {name}, e.ents[name].text, deep, deep);
      path := [name] + deeper;
      assert path[1..] == deeper;
      var last := deeper[|deeper| - 1];
      if last == name {
        assert path[0] == last;
      } else if last in deeper[..|deeper| - 1] {
        var j :| 0 <= j < |deeper| - 1 && deeper[j] == last;
        assert path[j + 1] == last;
      }
    }
  }

  // ----- line ends in the texts of entities

  /** The CR LF pairs that the value pulls in from the texts of entities, and those of `s`
      itself unless `fold`. */
  function Pairs(e: Env, open: set<seq<Byte>>, s: seq<Byte>, fold: bool): nat
    decreases e.ents.Keys - open, |s|, 1
  {
    if s == [] then 0
    else
      var t := e.enc.byteType(s[0]);
      if t.Amp? then
        match RefRun(e.enc, s, 1, RefFirst)
        case Tok(kind, next) => ReferencePairs(e, open, s[..next], kind) + Pairs(e, open, s[next..], fold)
        case _ => 0
      else if IsSpace(t) then
        var n := SpaceLen(e.enc, s, true);
        (if n == 2 && !fold then 1 else 0) + Pairs(e, open, s[n..], fold)
      else Pairs(e, open, s[CharLen(e.enc, s)..], fold)
  }

  function ReferencePairs(e: Env, open: set<seq<Byte>>, tok: seq<Byte>, kind: Kind): nat
    decreases e.ents.Keys - open, |tok|, 0
  {
    if kind.CharRef? || |tok| < 2 then 0
    else
      var name := tok[1..|tok| - 1];
      if Predefined(name) != 0 || name !in e.ents || name in open then 0
      else
        assert name in e.ents.Keys - open && name !in e.ents.Keys - (open + {name});
        Pairs(e, open + {name}, e.ents[name].text, false)
  }

  /** `b` is `a` with `n` more spaces, each next to a space, seen from stored bytes `p`. */
  ghost predicate Wider(a: Result, b: Result, n: nat, p: seq<Byte>) {
    if a.Fail? then b == a
    else
      b.Ok? && |b.text| == |a.text| + n && (n == 0 ==> b == a) &&
      PutAll(false, p, a.text) == PutAll(false, p, b.text)
  }

  lemma WiderBefore(a: Result, b: Result, n: nat, a2: Result, b2: Result, n2: nat, p: seq<Byte>)
    requires Wider(a, b, n, p) && (a.Ok? ==> Wider(a2, b2, n2, PutAll(false, p, a.text)))
    ensures a.Ok? ==> Wider(Before(a, a2), Before(b, b2), n + n2, p)
    ensures a.Fail? ==> Before(a, a2) == Before(b, b2) == a
  {
    if a.Ok? && a2.Ok? {
      PutAllConcat(false, p, a.text, a2.text);
      PutAllConcat(false, p, b.text, b2.text);
    }
  }

  /** Two spaces are stored like one. */
  lemma TwoSpaces(r: Result, p: seq<Byte>)
    ensures Wider(Before(Ok([SPACE]), r), Before(Ok([SPACE]), Before(Ok([SPACE]), r)), 1, p)
  {
    if r.Ok? {
      var one, two := [SPACE] + r.text, [SPACE] + ([SPACE] + r.text);
      assert one[1..] == r.text && two[1..] == one;
      assert Put(false, Put(false, p, SPACE), SPACE) == Put(false, p, SPACE);
    }
  }

  lemma WiderTrans(a: Result, b: Result, c: Result, n: nat, m: nat, p: seq<Byte>)
    requires Wider(a, b, n, p) && Wider(b, c, m, p)
    ensures Wider(a, c, n + m, p)
  {
  }

  /** The code's value and the one of XML 1.0, where only the line ends of the document
      itself are folded, differ by one space for each pair. */
  lemma {:induction false} LineEnds(e: Env, open: set<seq<Byte>>, s: seq<Byte>, fold: bool, p: seq<Byte>)
    ensures var a, b := Expand(e, open, s, true, true), Expand(e, open, s, fold, false);
            if a.Fail? then b == a else Wider(a, b, Pairs(e, open, s, fold), p)
    decreases e.ents.Keys - open, |s|, 1
  {
    if s != [] {
      var t := e.enc.byteType(s[0]);
      if t.Lt? {
      } else if t.Amp? {
        var r := RefRun(e.enc, s, 1, RefFirst);
        if r.Tok? {
          var tok, rest := s[..r.next], s[r.next..];
          var a, b := Reference(e, open, tok, r.kind, true), Reference(e, open, tok, r.kind, false);
          ReferenceLineEnds(e, open, s, tok, r.kind, p);
          if a.Ok? {
            var q := PutAll(false, p, a.text);
            LineEnds(e, open, rest, fold, q);
            var a2, b2 := Expand(e, open, rest, true, true), Expand(e, open, rest, fold, false);
            if a2.Ok? {
              WiderBefore(a, b, ReferencePairs(e, open, tok, r.kind), a2, b2, Pairs(e, open, rest, fold), p);
            }
          }
        }
      } else if IsSpace(t) {
        SpaceLineEnds(e, open, s, fold, p);
      } else {
        CharLineEnds(e, open, s, fold, p);
      }
    }
  }

  lemma {:induction false} CharLineEnds(e: Env, open: set<seq<Byte>>, s: seq<Byte>, fold: bool, p: seq<Byte>)
    requires s != [] && var t := e.enc.byteType(s[0]); !t.Lt? && !t.Amp? && !IsSpace(t)
    ensures var a, b := Expand(e, open, s, true, true), Expand(e, open, s, fold, false);
            if a.Fail? then b == a else Wider(a, b, Pairs(e, open, s, fold), p)
    decreases e.ents.Keys - open, |s|, 0
  {
    var n := CharLen(e.enc, s);
    var rest, head := s[n..], Ok(s[..n]);
    LineEnds(e, open, rest, fold, PutAll(false, p, s[..n]));
    if Expand(e, open, rest, true, true).Ok? {
      WiderBefore(head, head, 0, Expand(e, open, rest, true, true), Expand(e, open, rest, fold, false),
        Pairs(e, open, rest, fold), p);
    }
  }

  lemma {:induction false} SpaceLineEnds(e: Env, open: set<seq<Byte>>, s: seq<Byte>, fold: bool, p: seq<Byte>)
    requires s != [] && IsSpace(e.enc.byteType(s[0]))
    ensures var a, b := Expand(e, open, s, true, true), Expand(e, open, s, fold, false);
            if a.Fail? then b == a else Wider(a, b, Pairs(e, open, s, fold), p)
    decreases e.ents.Keys - open, |s|, 0
  {
    var n := SpaceLen(e.enc, s, true);
    var rest, head := s[n..], Ok([SPACE]);
    LineEnds(e, open, rest, fold, PutAll(false, p, [SPACE]));
    var a2, b2 := Expand(e, open, rest, true, true), Expand(e, open, rest, fold, false);
    if a2.Ok? {
      WiderBefore(head, head, 0, a2, b2, Pairs(e, open, rest, fold), p);
    }
    if n == 2 && !fold {
      assert s[1..][0] == s[1] && s[1..][1..] == rest;
      assert Expand(e, open, s[1..], fold, false) == Before(head, b2);
      assert Expand(e, open, s, fold, false) == Before(head, Before(head, b2));
      TwoSpaces(b2, p);
      if a2.Ok? {
        WiderTrans(Before(head, a2), Before(head, b2), Before(head, Before(head, b2)), Pairs(e, open, rest, fold), 1, p);
      }
    }
  }

  lemma {:induction false} ReferenceLineEnds(e: Env, open: set<seq<Byte>>, s: seq<Byte>, tok: seq<Byte>, kind: Kind, p: seq<Byte>)
    requires |tok| <= |s|
    ensures var a, b := Reference(e, open, tok, kind, true), Reference(e, open, tok, kind, false);
            if a.Fail? then b == a else Wider(a, b, ReferencePairs(e, open, tok, kind), p)
    decreases e.ents.Keys - open, |s|, 0
  {
    if !kind.CharRef? && |tok| >= 2 {
      var name := tok[1..|tok| - 1];
      if Predefined(name) == 0 && name in e.ents && name !in open {
        assert name in e.ents.Keys - open && name !in e.ents.Keys - (open + {name});
        LineEnds(e, open + {name}, e.ents[name].text, false, p);
      }
    }
  }

  /** The value of an attribute: by the code, and by section 3.3.3 of XML 1.0. */
  function ByCode(e: Env, isCdata: bool, s: seq<Byte>): Result {
    match Expand(e, {}, s, true, true)
    case Ok(v) => Ok(Normalized(isCdata, v))
    case Fail(error) => Fail(error)
  }

  function ByStandard(e: Env, isCdata: bool, s: seq<Byte>): Result {
    match Expand(e, {}, s, true, false)
    case Ok(v) => Ok(Normalized(isCdata, v))
    case Fail(error) => Fail(error)
  }

  /** The code has the errors of the standard. And of a value without error it makes what the
      standard says exactly when the value is tokenized or takes no CR LF pair from the text
      of an entity. */
  lemma MeetsStandard(e: Env, isCdata: bool, s: seq<Byte>)
    ensures ByCode(e, isCdata, s).Fail? || ByStandard(e, isCdata, s).Fail? ==>
              ByCode(e, isCdata, s) == ByStandard(e, isCdata, s)
    ensures ByCode(e, isCdata, s).Ok? ==>
              (ByCode(e, isCdata, s) == ByStandard(e, isCdata, s) <==> !isCdata || Pairs(e, {}, s, true) == 0)
  {
    LineEnds(e, {}, s, true, []);
    var a, b := Expand(e, {}, s, true, true), Expand(e, {}, s, true, false);
    if a.Ok? {
      StoredIsNormalized(false, a.text);
      StoredIsNormalized(false, b.text);
    }
  }

  /** The example of the standard's own table: an entity `da` whose text is CR LF is two
      spaces in a CDATA value, and the code makes one of it. */
  lemma LineEndLost(e: Env)
    requires e.enc.byteType(0x26).Amp? && e.enc.byteType(0x64).Hex? && e.enc.byteType(0x61).Hex?
    requires e.enc.byteType(0x3B).Semi? && e.enc.byteType(0x0D).Cr? && e.enc.byteType(0x0A).Lf?
    requires e.ents == map[[0x64, 0x61] := Ent(true, [0x0D, 0x0A], false, true)]
    ensures ByCode(e, true, [0x26, 0x64, 0x61, 0x3B]) == Ok([SPACE])
    ensures ByStandard(e, true, [0x26, 0x64, 0x61, 0x3B]) == Ok([SPACE, SPACE])
  {
    var s: seq<Byte>, name: seq<Byte>, text: seq<Byte> := [0x26, 0x64, 0x61, 0x3B], [0x64, 0x61], [0x0D, 0x0A];
    assert RefRun(e.enc, s, 3, RefName) == Tok(EntityRef, 4);
    assert RefRun(e.enc, s, 2, RefName) == Tok(EntityRef, 4);
    assert RefRun(e.enc, s, 1, RefFirst) == Tok(EntityRef, 4);
    assert s[..4] == s && s[4..] == [] && s[1..3] == name;
    assert text[2..] == [] && text[1..] == [0x0A] && text[1..][1..] == [];
    assert Expand(e, {name}, text, true, true) == Ok([SPACE]);
    assert Expand(e, {name}, [0x0A], false, false) == Ok([SPACE]);
    assert Expand(e, {name}, text, false, false) == Ok([SPACE, SPACE]);
    assert {} + {name} == {name};
    assert Reference(e, {}, s, EntityRef, true) == Ok([SPACE]);
    assert Reference(e, {}, s, EntityRef, false) == Ok([SPACE, SPACE]);
    assert [SPACE] + [] == [SPACE] && [SPACE, SPACE] + [] == [SPACE, SPACE];
    assert Expand(e, {}, s[4..], true, true) == Ok([]) && Expand(e, {}, s[4..], true, false) == Ok([]);
    assert Expand(e, {}, s, true, true) == Before(Reference(e, {}, s, EntityRef, true), Ok([]));
    assert Expand(e, {}, s, true, false) == Before(Reference(e, {}, s, EntityRef, false), Ok([]));
  }
}
