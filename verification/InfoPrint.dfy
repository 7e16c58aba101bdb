/** The printer of the INFO form (diff.cc:52-74), and the round trip through the loader. */
module InfoPrint {
  import opened Wrappers
  import opened InfoTokens
  import opened InfoReader
  import opened InfoLoad

  // ----- texts as tokens and white space

  /** A part of a printed text. */
  datatype Piece = Gap(space: string) | Tok(token: Token)

  /** A name that the reader takes for one symbol. */
  predicate IsLegal(name: string) { name != "" && forall c | c in name :: !Ends(c) }

  function Spelling(p: Piece): string {
    match p
    case Gap(space) => space
    case Tok(Symbol(t)) => t
    case Tok(Open) => "("
    case Tok(Close) => ")"
    case Tok(_) => ""
  }

  function Printed(ps: seq<Piece>): string {
    if ps == [] then "" else Spelling(ps[0]) + Printed(ps[1..])
  }

  /** Only the tokens. */
  function Strip(ps: seq<Piece>): seq<Token> {
    if ps == [] then [] else (if ps[0].Tok? then [ps[0].token] else []) + Strip(ps[1..])
  }

  predicate IsWord(p: Piece) { p.Tok? && p.token.Symbol? }

  /** Symbols are legal and stand apart. */
  predicate WellSpaced(ps: seq<Piece>) {
    ps == [] || (StartsWell(ps) && WellSpaced(ps[1..]))
  }

  predicate StartsWell(ps: seq<Piece>)
    requires ps != []
  {
    match ps[0]
    case Gap(space) => space != "" && forall c | c in space :: IsSpace(c)
    case Tok(Symbol(t)) => IsLegal(t) && (|ps| == 1 || !IsWord(ps[1]))
    case Tok(token) => token.Open? || token.Close?
  }

  lemma {:induction false} SkipSpace(space: string, s: string)
    requires forall c | c in space :: IsSpace(c)
    ensures Tokens(space + s) == Tokens(s)
    decreases |space|
  {
    if space == "" {
      assert space + s == s;
    } else {
      var all := space + s;
      assert all[0] == space[0] && all[1..] == space[1..] + s && space[0] in space;
      SkipSpace(space[1..], s);
      assert TokenAt(all) == TokenAt(all[1..]);
    }
  }

  /** A symbol is read up to the first character that ends it. */
  lemma {:induction false} ReadSymbol(got: string, name: string, s: string)
    requires (forall c | c in name :: !Ends(c)) && (s == "" || Ends(s[0]))
    ensures SymbolFrom(got, name + s) ==
            Read(Symbol(got + name), if s != "" && IsSpace(s[0]) then s[1..] else s)
    decreases |name|
  {
    var all := name + s;
    if name == "" {
      assert all == s && got + name == got;
    } else {
      assert all[0] == name[0] && all[1..] == name[1..] + s && name[0] in name;
      ReadSymbol(got + [name[0]], name[1..], s);
      assert (got + [name[0]]) + name[1..] == got + name;
    }
  }

  lemma SymbolFirst(t: string, rest: string)
    requires IsLegal(t) && (rest == "" || Ends(rest[0]))
    ensures Tokens(t + rest) == [Symbol(t)] + Tokens(rest)
  {
    var all, more := t + rest, if rest != "" && IsSpace(rest[0]) then rest[1..] else rest;
    assert t[0] in t && all[0] == t[0] && all[1..] == t[1..] + rest;
    ReadSymbol([t[0]], t[1..], rest);
    assert [t[0]] + t[1..] == t;
    assert TokenAt(all) == Read(Symbol(t), more);
    assert Tokens(more) == Tokens(rest) by {
      if rest != "" && IsSpace(rest[0]) {
        SkipSpace([rest[0]], rest[1..]);
        assert [rest[0]] + rest[1..] == rest;
      }
    }
  }

  lemma ParenFirst(open: bool, rest: string)
    ensures Tokens((if open then "(" else ")") + rest) == [if open then Open else Close] + Tokens(rest)
  {
    var all := (if open then "(" else ")") + rest;
    assert all[1..] == rest;
  }

  /** The tokens of a printed text. */
  lemma {:induction false} PrintedTokens(ps: seq<Piece>)
    requires WellSpaced(ps)
    ensures Tokens(Printed(ps)) == Strip(ps) + [Eof]
  {
    if ps != [] {
      var rest := Printed(ps[1..]);
      PrintedTokens(ps[1..]);
      assert Printed(ps) == Spelling(ps[0]) + rest;
      assert ps[0].Tok? ==> Strip(ps) + [Eof] == [ps[0].token] + (Strip(ps[1..]) + [Eof]);
      assert ps[0].Gap? ==> Strip(ps) == [] + Strip(ps[1..]) == Strip(ps[1..]);
      match ps[0]
      case Gap(space) => SkipSpace(space, rest);
      case Tok(Symbol(t)) =>
        PrintedStart(ps[1..]);
        SymbolFirst(t, rest);
      case Tok(token) => ParenFirst(token.Open?, rest);
    }
  }

  /** What follows a symbol ends it. */
  lemma PrintedStart(ps: seq<Piece>)
    requires WellSpaced(ps) && (ps == [] || !IsWord(ps[0]))
    ensures Printed(ps) == "" || Ends(Printed(ps)[0])
  {
    if ps != [] {
      var s := Spelling(ps[0]);
      assert s[0] in s;
    }
  }

  // ----- numbers

  /** `std::dec` */
  function DecText(n: nat): (s: string)
    ensures s != "" && forall c | c in s :: IsDigit(c)
  {
    (if n < 10 then "" else DecText(n / 10)) + [('0' as int + n % 10) as char]
  }

  /** `std::hex`, with zeros in front up to `width` digits. */
  function HexText(n: nat, width: nat): (s: string)
    ensures |s| == width && forall c | c in s :: IsHexDigit(c)
    decreases width, n
  {
    if width == 0 then ""
    else
      var d := n % 16;
      HexText(n / 16, width - 1) + [(if d < 10 then '0' as int + d else 'a' as int + d - 10) as char]
  }

  lemma {:induction false} DecBack(n: nat)
    ensures Number(DecText(n), 10) == n
  {
    var s := DecText(n);
    assert s[..|s| - 1] == if n < 10 then "" else DecText(n / 10);
    if n >= 10 {
      DecBack(n / 10);
    }
  }

  function Pow16(k: nat): nat { if k == 0 then 1 else 16 * Pow16(k - 1) }

  lemma {:induction false} HexBack(n: nat, width: nat)
    requires n < Pow16(width)
    ensures Number(HexText(n, width), 16) == n
    decreases width
  {
    if width > 0 {
      var s := HexText(n, width);
      assert s[..width - 1] == HexText(n / 16, width - 1);
      HexBack(n / 16, width - 1);
    }
  }

  lemma LegalDigits(s: string)
    requires s != "" && forall c | c in s :: IsHexDigit(c)
    ensures IsLegal(s)
  {
  }

  lemma HexWhole(h: string)
    requires 1 < |h| && (forall c | c in h :: IsHexDigit(c)) && Number(h, 16) < LIMIT
    ensures HexOf(h) == Some(Number(h, 16)) && IsLegal(h)
  {
    LegalDigits(h);
    assert h[1] in h;
  }

  lemma DecWhole(s: string)
    requires s != "" && (forall c | c in s :: IsDigit(c)) && Number(s, 10) < LIMIT
    ensures DecOf(s) == Some(Number(s, 10)) && IsLegal(s)
  {
    LegalDigits(s);
  }

  lemma EightDigits()
    ensures Pow16(8) == LIMIT
  {
    assert Pow16(4) == 0x1_0000;
    assert Pow16(8) == 16 * (16 * (16 * (16 * Pow16(4))));
  }

  /** A crc is printed with eight digits. */
  function CrcText(n: nat): string { HexText(n, 8) }

  /** The readers take the printed numbers for what they were. */
  lemma NumbersBack(n: nat)
    requires n < LIMIT
    ensures DecOf(DecText(n)) == Some(n) && IsLegal(DecText(n))
    ensures HexOf(CrcText(n)) == Some(n) && IsLegal(CrcText(n))
  {
    DecBack(n);
    DecWhole(DecText(n));
    EightDigits();
    HexBack(n, 8);
    HexWhole(CrcText(n));
  }

  // ----- the printer

  /** A rom with its name. */
  datatype Named = Named(name: string, rom: Rom)

  /** A game as it is printed: its name and its roms, in order. */
  datatype Listing = Listing(name: string, roms: seq<Named>)

  function RomText(r: Named): string {
    "rom ( name " + r.name + " size " + DecText(r.rom.size) +
    (if r.rom.nodump then " flags nodump" else " crc " + CrcText(r.rom.crc)) + " )"
  }

  function LineText(r: Named): string { "\t" + RomText(r) + "\n" }

  function RomsText(roms: seq<Named>): string {
    if roms == [] then "" else LineText(roms[0]) + RomsText(roms[1..])
  }

  function HeadText(name: string): string { "game (\n" + "\tname " + name + "\n" }

  function GameText(g: Listing): string { HeadText(g.name) + RomsText(g.roms) + ")\n" }

  function AllText(games: seq<Listing>): string {
    if games == [] then "" else GameText(games[0]) + AllText(games[1..])
  }

  class Stream {
    var text: string

    constructor ()
      ensures text == ""
    {
      text := "";
    }

    method Put(s: string)
      modifies this
      ensures text == old(text) + s
    {
      text := text + s;
    }

    /** `output_info` for a rom. */
    method OutputRom(r: Named)
      modifies this
      ensures text == old(text) + RomText(r)
    {
      var flags := if r.rom.nodump then " flags nodump" else " crc " + CrcText(r.rom.crc);
      Put("rom ( name " + r.name + " size " + DecText(r.rom.size) + flags + " )");
    }

    method OutputLine(r: Named)
      modifies this
      ensures text == old(text) + LineText(r)
    {
      Put("\t");
      OutputRom(r);
      Put("\n");
    }

    /** The roms of a game, one on a line. */
    method OutputRoms(roms: seq<Named>)
      modifies this
      ensures text == old(text) + RomsText(roms)
    {
      ghost var whole := text + RomsText(roms);
      var i := 0;
      assert roms[0..] == roms;
      while i < |roms|
        invariant i <= |roms| && text + RomsText(roms[i..]) == whole
      {
        ghost var before := text;
        OutputLine(roms[i]);
        LineNext(before, roms, i);
        i := i + 1;
      }
      assert text + "" == text;
    }

    /** `output_info` for a game. */
    method OutputGame(g: Listing)
      modifies this
      ensures text == old(text) + GameText(g)
    {
      Put(HeadText(g.name));
      OutputRoms(g.roms);
      Put(")\n");
    }
  }

  lemma LineNext(before: string, roms: seq<Named>, i: nat)
    requires i < |roms|
    ensures before + RomsText(roms[i..]) == before + LineText(roms[i]) + RomsText(roms[i + 1..])
  {
    assert roms[i..][1..] == roms[i + 1..];
  }

  // ----- the round trip

  function W(s: string): Piece { Tok(Symbol(s)) }

  /** A word, white space, and more. */
  function Pair(w: string, space: string, ps: seq<Piece>): seq<Piece> { [W(w), Gap(space)] + ps }

  function Paren(open: bool, space: string, ps: seq<Piece>): seq<Piece> {
    [Tok(if open then Open else Close), Gap(space)] + ps
  }

  predicate IsGap(space: string) { space != "" && forall c | c in space :: IsSpace(c) }

  lemma PairFacts(w: string, space: string, ps: seq<Piece>)
    requires IsLegal(w) && IsGap(space) && WellSpaced(ps)
    ensures Printed(Pair(w, space, ps)) == w + (space + Printed(ps))
    ensures Strip(Pair(w, space, ps)) == [Symbol(w)] + Strip(ps) && WellSpaced(Pair(w, space, ps))
  {
    var all := Pair(w, space, ps);
    assert all[1..][1..] == ps && all[1..][0] == Gap(space);
    assert Printed(all[1..]) == space + Printed(ps) && Strip(all[1..]) == [] + Strip(ps) == Strip(ps);
    assert WellSpaced(all[1..]);
  }

  lemma ParenFacts(open: bool, space: string, ps: seq<Piece>)
    requires IsGap(space) && WellSpaced(ps)
    ensures Printed(Paren(open, space, ps)) == (if open then "(" else ")") + (space + Printed(ps))
    ensures Strip(Paren(open, space, ps)) == [if open then Open else Close] + Strip(ps) && WellSpaced(Paren(open, space, ps))
  {
    var all := Paren(open, space, ps);
    assert all[1..][1..] == ps && all[1..][0] == Gap(space);
    assert Printed(all[1..]) == space + Printed(ps) && Strip(all[1..]) == [] + Strip(ps) == Strip(ps);
    assert WellSpaced(all[1..]);
  }

  lemma GapFacts(space: string, ps: seq<Piece>)
    requires IsGap(space) && WellSpaced(ps)
    ensures var all := [Gap(space)] + ps; Printed(all) == space + Printed(ps) && Strip(all) == Strip(ps) && WellSpaced(all)
  {
    var all := [Gap(space)] + ps;
    assert all[1..] == ps;
  }

  function RomEnd(key: string, value: string, ps: seq<Piece>): seq<Piece> {
    Pair(key, " ", Pair(value, " ", Paren(false, "\n", ps)))
  }

  function KeyOf(r: Rom): string { if r.nodump then "flags" else "crc" }

  function ValueOf(r: Rom): string { if r.nodump then "nodump" else CrcText(r.crc) }

  function RomPieces(r: Named, ps: seq<Piece>): seq<Piece> {
    [Gap("\t")] + Pair("rom", " ", Paren(true, " ", Pair("name", " ", Pair(r.name, " ",
      Pair("size", " ", Pair(DecText(r.rom.size), " ", RomEnd(KeyOf(r.rom), ValueOf(r.rom), ps)))))))
  }

  function RomsPieces(roms: seq<Named>, ps: seq<Piece>): seq<Piece> {
    if roms == [] then ps else RomPieces(roms[0], RomsPieces(roms[1..], ps))
  }

  function GamePieces(g: Listing, ps: seq<Piece>): seq<Piece> {
    Pair("game", " ", Paren(true, "\n", [Gap("\t")] + Pair("name", " ", Pair(g.name, "\n",
      RomsPieces(g.roms, Paren(false, "\n", ps))))))
  }

  function AllPieces(games: seq<Listing>): seq<Piece> {
    if games == [] then [] else GamePieces(games[0], AllPieces(games[1..]))
  }

  predicate LegalRom(r: Named) { IsLegal(r.name) && r.rom.size < LIMIT && r.rom.crc < LIMIT }

  /** Names that are legal symbols, and numbers of 32 bits. */
  predicate LegalGame(g: Listing) { IsLegal(g.name) && forall i | 0 <= i < |g.roms| :: LegalRom(g.roms[i]) }

  // the same in tokens

  function RomTokens(r: Named, ts: seq<Token>): seq<Token> {
    [Symbol("rom"), Open, Symbol("name"), Symbol(r.name), Symbol("size"), Symbol(DecText(r.rom.size)),
     Symbol(KeyOf(r.rom)), Symbol(ValueOf(r.rom)), Close] + ts
  }

  function RomsTokens(roms: seq<Named>, ts: seq<Token>): seq<Token> {
    if roms == [] then ts else RomTokens(roms[0], RomsTokens(roms[1..], ts))
  }

  function GameTokens(g: Listing, ts: seq<Token>): seq<Token> {
    [Symbol("game"), Open, Symbol("name"), Symbol(g.name)] + RomsTokens(g.roms, [Close] + ts)
  }

  function AllTokens(games: seq<Listing>): seq<Token> {
    if games == [] then [Eof] else GameTokens(games[0], AllTokens(games[1..]))
  }

  /** Well spaced pieces, their text and their tokens. */
  ghost predicate Shape(ps: seq<Piece>, text: string, ts: seq<Token>) {
    forall k {:trigger Asked(k)} :: Asked(k) ==> Printed(ps) == text && Strip(ps) == ts && WellSpaced(ps)
  }

  predicate Asked(k: int) { true }

  lemma PairShape(w: string, space: string, ps: seq<Piece>, text: string, ts: seq<Token>)
    requires Shape(ps, text, ts) && IsLegal(w) && IsGap(space)
    ensures Shape(Pair(w, space, ps), w + (space + text), [Symbol(w)] + ts)
  {
    assert Asked(0);
    PairFacts(w, space, ps);
  }

  lemma ParenShape(open: bool, space: string, ps: seq<Piece>, text: string, ts: seq<Token>)
    requires Shape(ps, text, ts) && IsGap(space)
    ensures Shape(Paren(open, space, ps), (if open then "(" else ")") + (space + text), [if open then Open else Close] + ts)
  {
    assert Asked(0);
    ParenFacts(open, space, ps);
  }

  lemma GapShape(space: string, ps: seq<Piece>, text: string, ts: seq<Token>)
    requires Shape(ps, text, ts) && IsGap(space)
    ensures Shape([Gap(space)] + ps, space + text, ts)
  {
    assert Asked(0);
    GapFacts(space, ps);
  }

  lemma EndGlue(key: string, value: string, text: string)
    ensures key + (" " + (value + (" " + (")" + ("\n" + text))))) == (key + " " + value + " )") + ("\n" + text)
  {
    var tail := ")" + ("\n" + text);
    assert " " + tail == " )" + ("\n" + text);
    assert value + (" " + tail) == (value + " )") + ("\n" + text);
  }

  lemma BodyGlue(name: string, size: string, text: string)
    ensures name + (" " + ("size" + (" " + (size + (" " + text))))) == (name + " size " + size + " ") + text
  {
    var tail := size + (" " + text);
    assert " " + ("size" + (" " + tail)) == " size " + tail;
  }

  lemma HeadGlue(text: string)
    ensures "\t" + ("rom" + (" " + ("(" + (" " + ("name" + (" " + text)))))) == "\t" + ("rom ( name " + text)
  {
    assert "name" + (" " + text) == "name " + text;
    assert "(" + (" " + ("name " + text)) == "( name " + text;
    assert "rom" + (" " + ("( name " + text)) == "rom ( name " + text;
  }

  lemma EndShape(key: string, value: string, ps: seq<Piece>, text: string, ts: seq<Token>)
    requires Shape(ps, text, ts) && IsLegal(key) && IsLegal(value)
    ensures Shape(RomEnd(key, value, ps), (key + " " + value + " )") + ("\n" + text), [Symbol(key), Symbol(value), Close] + ts)
  {
    var p1 := Paren(false, "\n", ps);
    ParenShape(false, "\n", ps, text, ts);
    PairShape(value, " ", p1, ")" + ("\n" + text), [Close] + ts);
    PairShape(key, " ", Pair(value, " ", p1), value + (" " + (")" + ("\n" + text))), [Symbol(value)] + ([Close] + ts));
    EndGlue(key, value, text);
    assert [Symbol(key)] + ([Symbol(value)] + ([Close] + ts)) == [Symbol(key), Symbol(value), Close] + ts;
  }

  lemma BodyShape(name: string, size: string, ps: seq<Piece>, text: string, ts: seq<Token>)
    requires Shape(ps, text, ts) && IsLegal(name) && IsLegal(size)
    ensures Shape(Pair(name, " ", Pair("size", " ", Pair(size, " ", ps))),
              (name + " size " + size + " ") + text, [Symbol(name), Symbol("size"), Symbol(size)] + ts)
  {
    var p1 := Pair(size, " ", ps);
    var t1 := size + (" " + text);
    PairShape(size, " ", ps, text, ts);
    PairShape("size", " ", p1, t1, [Symbol(size)] + ts);
    PairShape(name, " ", Pair("size", " ", p1), "size" + (" " + t1), [Symbol("size")] + ([Symbol(size)] + ts));
    BodyGlue(name, size, text);
    assert [Symbol(name)] + ([Symbol("size")] + ([Symbol(size)] + ts)) == [Symbol(name), Symbol("size"), Symbol(size)] + ts;
  }

  lemma HeadShape(ps: seq<Piece>, text: string, ts: seq<Token>)
    requires Shape(ps, text, ts)
    ensures Shape([Gap("\t")] + Pair("rom", " ", Paren(true, " ", Pair("name", " ", ps))),
              "\t" + ("rom ( name " + text), [Symbol("rom"), Open, Symbol("name")] + ts)
  {
    var p1 := Pair("name", " ", ps);
    var p2 := Paren(true, " ", p1);
    var t1, s1 := "name" + (" " + text), [Symbol("name")] + ts;
    PairShape("name", " ", ps, text, ts);
    ParenShape(true, " ", p1, t1, s1);
    PairShape("rom", " ", p2, "(" + (" " + t1), [Open] + s1);
    GapShape("\t", Pair("rom", " ", p2), "rom" + (" " + ("(" + (" " + t1))), [Symbol("rom")] + ([Open] + s1));
    HeadGlue(text);
    assert [Symbol("rom")] + ([Open] + s1) == [Symbol("rom"), Open, Symbol("name")] + ts;
  }

  lemma FlagGlue(r: Rom)
    ensures (if r.nodump then " flags nodump" else " crc " + CrcText(r.crc)) == " " + KeyOf(r) + " " + ValueOf(r)
  {
  }

  /** Concatenation, bracketed in two ways. */
  lemma Glue(h: string, a: string, b: string, k: string, c: string, text: string)
    ensures h + ((a + b) + ((k + c) + text)) == (h + a + (b + k) + c) + text
  {
    assert (a + b) + ((k + c) + text) == a + ((b + k) + (c + text));
  }

  lemma LineGlue(r: Named, text: string)
    ensures "\t" + ("rom ( name " + ((r.name + " size " + DecText(r.rom.size) + " ") +
              ((KeyOf(r.rom) + " " + ValueOf(r.rom) + " )") + ("\n" + text)))) == LineText(r) + text
  {
    FlagGlue(r.rom);
    var h, a, k := "rom ( name ", r.name + " size " + DecText(r.rom.size), KeyOf(r.rom) + " " + ValueOf(r.rom);
    Glue(h, a, " ", k, " )", "\n" + text);
    RomTextIs(r, h, a, k);
    LineIs("\t", h + a + (" " + k) + " )", "\n", text);
  }

  lemma RomTextIs(r: Named, h: string, a: string, k: string)
    requires h == "rom ( name " && a == r.name + " size " + DecText(r.rom.size) && k == KeyOf(r.rom) + " " + ValueOf(r.rom)
    ensures RomText(r) == h + a + (" " + k) + " )"
  {
    FlagGlue(r.rom);
    assert " " + KeyOf(r.rom) + " " + ValueOf(r.rom) == " " + k;
    Glue3(h, r.name, " size ", DecText(r.rom.size));
  }

  lemma Glue3(a: string, b: string, c: string, d: string)
    ensures a + b + c + d == a + (b + c + d)
  {
  }

  lemma LineIs(a: string, b: string, c: string, d: string)
    ensures a + (b + (c + d)) == (a + b + c) + d
  {
  }

  lemma LegalParts(r: Named)
    requires LegalRom(r)
    ensures IsLegal(DecText(r.rom.size)) && IsLegal(KeyOf(r.rom)) && IsLegal(ValueOf(r.rom))
  {
    NumbersBack(r.rom.size);
    NumbersBack(r.rom.crc);
  }

  lemma NineTokens(r: Named, ts: seq<Token>)
    ensures [Symbol("rom"), Open, Symbol("name")] + ([Symbol(r.name), Symbol("size"), Symbol(DecText(r.rom.size))] +
              ([Symbol(KeyOf(r.rom)), Symbol(ValueOf(r.rom)), Close] + ts)) == RomTokens(r, ts)
  {
  }

  lemma RomShape(r: Named, ps: seq<Piece>, text: string, ts: seq<Token>)
    requires Shape(ps, text, ts) && LegalRom(r)
    ensures Shape(RomPieces(r, ps), LineText(r) + text, RomTokens(r, ts))
  {
    var size, key, value := DecText(r.rom.size), KeyOf(r.rom), ValueOf(r.rom);
    LegalParts(r);
    EndShape(key, value, ps, text, ts);
    var end, endText, endTokens := RomEnd(key, value, ps), (key + " " + value + " )") + ("\n" + text), [Symbol(key), Symbol(value), Close] + ts;
    BodyShape(r.name, size, end, endText, endTokens);
    HeadShape(Pair(r.name, " ", Pair("size", " ", Pair(size, " ", end))), (r.name + " size " + size + " ") + endText,
      [Symbol(r.name), Symbol("size"), Symbol(size)] + endTokens);
    LineGlue(r, text);
    NineTokens(r, ts);
  }

  lemma {:induction false} RomsShape(roms: seq<Named>, ps: seq<Piece>, text: string, ts: seq<Token>)
    requires Shape(ps, text, ts) && forall i | 0 <= i < |roms| :: LegalRom(roms[i])
    ensures Shape(RomsPieces(roms, ps), RomsText(roms) + text, RomsTokens(roms, ts))
  {
    if roms == [] {
      assert "" + text == text;
    } else {
      RomsShape(roms[1..], ps, text, ts);
      var more := RomsText(roms[1..]) + text;
      RomShape(roms[0], RomsPieces(roms[1..], ps), more, RomsTokens(roms[1..], ts));
      assert LineText(roms[0]) + more == RomsText(roms) + text;
    }
  }

  lemma GameGlue(name: string, text: string)
    ensures "game" + (" " + ("(" + ("\n" + ("\t" + ("name" + (" " + (name + ("\n" + text)))))))) == HeadText(name) + text
  {
    var a := name + ("\n" + text);
    assert "name" + (" " + a) == "name " + a;
    assert "\t" + ("name " + a) == "\tname " + a;
    assert "(" + ("\n" + ("\tname " + a)) == "(\n\tname " + a;
    assert "game" + (" " + ("(\n\tname " + a)) == "game (\n\tname " + a;
    assert HeadText(name) == "game (\n\tname " + (name + "\n");
    assert name + "\n" + text == a;
  }

  lemma GameShape(g: Listing, ps: seq<Piece>, text: string, ts: seq<Token>)
    requires Shape(ps, text, ts) && LegalGame(g)
    ensures Shape(GamePieces(g, ps), GameText(g) + text, GameTokens(g, ts))
  {
    var close := Paren(false, "\n", ps);
    ParenShape(false, "\n", ps, text, ts);
    RomsShape(g.roms, close, ")" + ("\n" + text), [Close] + ts);
    var body, bodyText, all := RomsPieces(g.roms, close), RomsText(g.roms) + (")" + ("\n" + text)), RomsTokens(g.roms, [Close] + ts);
    GameHeadShape(g.name, body, bodyText, all);
    LineIs(HeadText(g.name), RomsText(g.roms), ")\n", text);
    assert ")" + ("\n" + text) == ")\n" + text;
  }

  lemma GameHeadShape(name: string, ps: seq<Piece>, text: string, ts: seq<Token>)
    requires Shape(ps, text, ts) && IsLegal(name)
    ensures Shape(Pair("game", " ", Paren(true, "\n", [Gap("\t")] + Pair("name", " ", Pair(name, "\n", ps)))),
              HeadText(name) + text, [Symbol("game"), Open, Symbol("name"), Symbol(name)] + ts)
  {
    var p1, t1, s1 := Pair(name, "\n", ps), name + ("\n" + text), [Symbol(name)] + ts;
    PairShape(name, "\n", ps, text, ts);
    var p2, t2, s2 := Pair("name", " ", p1), "name" + (" " + t1), [Symbol("name")] + s1;
    PairShape("name", " ", p1, t1, s1);
    GapShape("\t", p2, t2, s2);
    var p3, t3, s3 := Paren(true, "\n", [Gap("\t")] + p2), "(" + ("\n" + ("\t" + t2)), [Open] + s2;
    ParenShape(true, "\n", [Gap("\t")] + p2, "\t" + t2, s2);
    PairShape("game", " ", p3, t3, s3);
    GameGlue(name, text);
    assert [Symbol("game")] + s3 == [Symbol("game"), Open, Symbol("name"), Symbol(name)] + ts;
  }

  lemma {:induction false} AllShape(games: seq<Listing>)
    requires forall i | 0 <= i < |games| :: LegalGame(games[i])
    ensures WellSpaced(AllPieces(games)) && Printed(AllPieces(games)) == AllText(games)
    ensures Strip(AllPieces(games)) + [Eof] == AllTokens(games)
  {
    if games == [] {
    } else {
      AllShape(games[1..]);
      var ps := AllPieces(games[1..]);
      GameShape(games[0], ps, AllText(games[1..]), Strip(ps));
      assert Asked(0);
      AddEof(games[0], Strip(ps));
    }
  }

  lemma {:induction false} RomsEof(roms: seq<Named>, ts: seq<Token>, end: seq<Token>)
    ensures RomsTokens(roms, ts) + end == RomsTokens(roms, ts + end)
  {
    if roms != [] {
      RomsEof(roms[1..], ts, end);
      var more := RomsTokens(roms[1..], ts);
      assert RomTokens(roms[0], more) + end == RomTokens(roms[0], more + end);
    }
  }

  lemma AddEof(g: Listing, ts: seq<Token>)
    ensures GameTokens(g, ts) + [Eof] == GameTokens(g, ts + [Eof])
  {
    RomsEof(g.roms, [Close] + ts, [Eof]);
    assert ([Close] + ts) + [Eof] == [Close] + (ts + [Eof]);
  }

  // what the loader makes of these tokens

  /** A rom without dump has no crc in the printed text. */
  function Kept(rom: Rom): Rom { if rom.nodump then rom.(crc := 0) else rom }

  function InsertAll(m: map<string, Rom>, roms: seq<Named>): map<string, Rom>
    decreases |roms|
  {
    if roms == [] then m else InsertAll(Insert(m, roms[0].name, Kept(roms[0].rom)), roms[1..])
  }

  function GameOf(g: Listing): Game { NewGame(false).(name := g.name, roms := InsertAll(map[], g.roms)) }

  function InsertGames(m: map<string, Game>, games: seq<Listing>): map<string, Game>
    decreases |games|
  {
    if games == [] then m else InsertGames(Insert(m, games[0].name, GameOf(games[0])), games[1..])
  }

  lemma RomStep(key: string, value: string, ts: seq<Token>, name: string, rom: Rom)
    requires key == "name" || key == "size" || key == "crc" || key == "flags"
    ensures RomFrom([Symbol(key)] + ([Symbol(value)] + ts), name, rom) ==
            (match RomField(key, [Symbol(value)] + ts, name, rom)
             case None => None
             case Some(r) => RomFrom(ts, r.name, r.rom))
  {
    var all, rest := [Symbol(key)] + ([Symbol(value)] + ts), [Symbol(value)] + ts;
    assert all[1..] == rest && rest[1..] == ts;
  }

  lemma FlagBack(r: Rom, ts: seq<Token>, name: string)
    requires r.size < LIMIT && r.crc < LIMIT
    ensures RomFrom([Symbol(KeyOf(r))] + ([Symbol(ValueOf(r))] + ([Close] + ts)), name, NO_ROM.(size := r.size)) ==
            Some(RomRead(name, Kept(r), ts))
  {
    NumbersBack(r.crc);
    var t1 := [Close] + ts;
    RomStep(KeyOf(r), ValueOf(r), t1, name, NO_ROM.(size := r.size));
    assert t1[1..] == ts;
  }

  lemma RomBack(r: Named, ts: seq<Token>)
    requires LegalRom(r)
    ensures RomFrom(RomTokens(r, ts)[2..], "", NO_ROM) == Some(RomRead(r.name, Kept(r.rom), ts))
  {
    var size := DecText(r.rom.size);
    var t2 := [Symbol(KeyOf(r.rom))] + ([Symbol(ValueOf(r.rom))] + ([Close] + ts));
    var t3 := [Symbol("size")] + ([Symbol(size)] + t2);
    assert RomTokens(r, ts)[2..] == [Symbol("name")] + ([Symbol(r.name)] + t3);
    RomStep("name", r.name, t3, "", NO_ROM);
    assert RomFrom(t3, r.name, NO_ROM) == RomFrom(t2, r.name, NO_ROM.(size := r.rom.size)) by {
      NumbersBack(r.rom.size);
      RomStep("size", size, t2, r.name, NO_ROM);
    }
    FlagBack(r.rom, ts, r.name);
  }

  lemma {:induction false} RomsBack(roms: seq<Named>, g: Game, ts: seq<Token>)
    requires forall i | 0 <= i < |roms| :: LegalRom(roms[i])
    ensures GameFrom(RomsTokens(roms, [Close] + ts), g) == Some(GameRead(g.(roms := InsertAll(g.roms, roms)), ts))
  {
    if roms == [] {
      assert ([Close] + ts)[1..] == ts;
    } else {
      var more := RomsTokens(roms[1..], [Close] + ts);
      var all := RomTokens(roms[0], more);
      var next := g.(roms := Insert(g.roms, roms[0].name, Kept(roms[0].rom)));
      RomBack(roms[0], more);
      assert all[1..][1..] == all[2..] && all[1..][0] == Open;
      assert GameField("rom", all[1..], g) == Some(GameRead(next, more));
      assert all[0] == Symbol("rom");
      RomsBack(roms[1..], next, ts);
    }
  }

  lemma GameBack(g: Listing, ts: seq<Token>)
    requires LegalGame(g)
    ensures GameFrom(GameTokens(g, ts)[2..], NewGame(false)) == Some(GameRead(GameOf(g), ts))
  {
    var roms := RomsTokens(g.roms, [Close] + ts);
    var all := [Symbol("name"), Symbol(g.name)] + roms;
    assert GameTokens(g, ts)[2..] == all;
    assert all[1..] == [Symbol(g.name)] + roms && all[1..][1..] == roms;
    RomsBack(g.roms, NewGame(false).(name := g.name), ts);
    assert GameFrom(all, NewGame(false)) == GameFrom(roms, NewGame(false).(name := g.name));
  }

  lemma {:induction false} AllBack(games: seq<Listing>, m: map<string, Game>)
    requires forall i | 0 <= i < |games| :: LegalGame(games[i])
    ensures AllFrom(AllTokens(games), m) == Some(InsertGames(m, games))
  {
    if games != [] {
      var g, rest := games[0], AllTokens(games[1..]);
      var all := GameTokens(g, rest);
      GameBack(g, rest);
      assert all[0] == Symbol("game") && all[1] == Open;
      AllBack(games[1..], Insert(m, g.name, GameOf(g)));
    }
  }

  /** Distinct names lose nothing. */
  lemma {:induction false} RomsKept(m: map<string, Rom>, roms: seq<Named>)
    requires forall i, j | 0 <= i < j < |roms| :: roms[i].name != roms[j].name
    requires forall i | 0 <= i < |roms| :: roms[i].name !in m
    ensures var r := InsertAll(m, roms);
            r.Keys == m.Keys + (set i | 0 <= i < |roms| :: roms[i].name) &&
            (forall n | n in m :: r[n] == m[n]) && forall i | 0 <= i < |roms| :: r[roms[i].name] == Kept(roms[i].rom)
    decreases |roms|
  {
    if roms != [] {
      var next := Insert(m, roms[0].name, Kept(roms[0].rom));
      RomsKept(next, roms[1..]);
      forall i | 1 <= i < |roms|
        ensures roms[i] == roms[1..][i - 1]
      {
      }
    }
  }

  lemma {:induction false} GamesKept(m: map<string, Game>, games: seq<Listing>)
    requires forall i, j | 0 <= i < j < |games| :: games[i].name != games[j].name
    requires forall i | 0 <= i < |games| :: games[i].name !in m
    ensures var r := InsertGames(m, games);
            r.Keys == m.Keys + (set i | 0 <= i < |games| :: games[i].name) &&
            (forall n | n in m :: r[n] == m[n]) && forall i | 0 <= i < |games| :: r[games[i].name] == GameOf(games[i])
    decreases |games|
  {
    if games != [] {
      var next := Insert(m, games[0].name, GameOf(games[0]));
      GamesKept(next, games[1..]);
      forall i | 1 <= i < |games|
        ensures games[i] == games[1..][i - 1]
      {
      }
    }
  }

  /** The roms of a printed game are all there, with size, nodump flag and, when dumped,
      crc. */
  lemma GameOfExactly(g: Listing)
    requires forall i, j | 0 <= i < j < |g.roms| :: g.roms[i].name != g.roms[j].name
    ensures GameOf(g).name == g.name && GameOf(g).roms.Keys == set i | 0 <= i < |g.roms| :: g.roms[i].name
    ensures forall i | 0 <= i < |g.roms| :: GameOf(g).roms[g.roms[i].name] == Kept(g.roms[i].rom)
  {
    RomsKept(map[], g.roms);
  }

  /** The meaning of a printed text is what was printed. */
  lemma LoadsBack(games: seq<Listing>)
    requires forall i | 0 <= i < |games| :: LegalGame(games[i])
    ensures AllFrom(Tokens(AllText(games)), map[]) == Some(InsertGames(map[], games))
  {
    AllShape(games);
    PrintedTokens(AllPieces(games));
    AllBack(games, map[]);
  }

  method PrintAll(games: seq<Listing>) returns (text: string)
    ensures text == AllText(games)
  {
    var os := new Stream();
    var i := 0;
    assert games[0..] == games;
    while i < |games|
      invariant i <= |games| && os.text + AllText(games[i..]) == AllText(games)
    {
      ghost var before := os.text;
      os.OutputGame(games[i]);
      NextGame(before, games, i);
      i := i + 1;
    }
    assert os.text + "" == os.text;
    return os.text;
  }

  lemma NextGame(before: string, games: seq<Listing>, i: nat)
    requires i < |games|
    ensures before + AllText(games[i..]) == before + GameText(games[i]) + AllText(games[i + 1..])
  {
    assert games[i..][1..] == games[i + 1..];
  }

  /** The loader reads back what the printer wrote. */
  method RoundTrip(games: seq<Listing>) returns (archive: GameArchive)
    requires forall i | 0 <= i < |games| :: LegalGame(games[i])
    requires forall i, j | 0 <= i < j < |games| :: games[i].name != games[j].name
    ensures archive.games.Keys == set i | 0 <= i < |games| :: games[i].name
    ensures forall i | 0 <= i < |games| :: archive.games[games[i].name] == GameOf(games[i])
  {
    var text := PrintAll(games);
    LoadsBack(games);
    GamesKept(map[], games);
    archive := new GameArchive();
    var r := new Reader(text);
    var ok := archive.LoadInfo(r);
  }
}
