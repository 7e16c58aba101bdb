/** The tokens of the INFO text form (lib/readinfo.c:108-267). */
module InfoTokens {
  import opened Wrappers

  datatype Token = Error | Eof | Symbol(text: string) | Open | Close | Quoted(text: string)

  predicate IsSpace(c: char) { c == ' ' || '\t' <= c <= '\r' }

  /** A character that ends a symbol. */
  predicate Ends(c: char) { IsSpace(c) || c == '(' || c == ')' || c == '"' }

  predicate IsHexDigit(c: char) { '0' <= c <= '9' || 'a' <= c <= 'f' || 'A' <= c <= 'F' }

  function HexDigit(c: char): (d: nat)
    requires IsHexDigit(c)
    ensures d < 16
  {
    if '0' <= c <= '9' then (c - '0') as int
    else if 'a' <= c <= 'f' then (c - 'a') as int + 10
    else (c - 'A') as int + 10
  }

  /** A token and the characters behind it. */
  datatype Read = Read(token: Token, rest: string)

  /** `get_symbol` behind the characters `got`; white space behind a symbol is read too. */
  function SymbolFrom(got: string, s: string): (r: Read)
    ensures r.token.Symbol? && |r.rest| <= |s|
    decreases |s|
  {
    if s == "" then Read(Symbol(got), "")
    else if IsSpace(s[0]) then Read(Symbol(got), s[1..])
    else if Ends(s[0]) then Read(Symbol(got), s)
    else SymbolFrom(got + [s[0]], s[1..])
  }

  /** The character that an escape stands for, by the letter behind the backslash. */
  function Escape(c: char): (r: string)
    ensures |r| <= 1
  {
    match c
    case 'a' => [7 as char]
    case 'b' => [8 as char]
    case 'f' => [12 as char]
    case 'n' => "\n"
    case 'r' => "\r"
    case 't' => "\t"
    case 'v' => [11 as char]
    case '\\' => "\\"
    case '?' => "?"
    case '\'' => "'"
    case '"' => "\""
    case _ => ""
  }

  /** `get_string` behind the characters `got`. */
  function StringFrom(got: string, s: string): (r: Read)
    ensures |r.rest| <= |s|
    decreases |s|
  {
    if s == "" then Read(Error, "")
    else if s[0] == '"' then Read(Quoted(got), s[1..])
    else if s[0] != '\\' then StringFrom(got + [s[0]], s[1..])
    else if |s| > 1 && s[1] == 'x' then
      if |s| > 3 && IsHexDigit(s[2]) && IsHexDigit(s[3]) then
        StringFrom(got + [(HexDigit(s[2]) * 16 + HexDigit(s[3])) as char], s[4..])
      else Read(Error, "")
    else if |s| > 1 && Escape(s[1]) != "" then StringFrom(got + Escape(s[1]), s[2..])
    else Read(Error, "")
  }

  /** `info_token_get` */
  function TokenAt(s: string): (r: Read)
    ensures r.token.Eof? || |r.rest| < |s|
    decreases |s|
  {
    if s == "" then Read(Eof, "")
    else if IsSpace(s[0]) then TokenAt(s[1..])
    else if s[0] == '(' then Read(Open, s[1..])
    else if s[0] == ')' then Read(Close, s[1..])
    else if s[0] == '"' then StringFrom("", s[1..])
    else SymbolFrom([s[0]], s[1..])
  }

  /** All tokens of a text, up to the first error or the end. */
  function Tokens(s: string): (ts: seq<Token>)
    ensures ts != [] && (ts[|ts| - 1].Eof? || ts[|ts| - 1].Error?)
    ensures forall i | 0 <= i < |ts| - 1 :: !ts[i].Eof? && !ts[i].Error?
    decreases |s|
  {
    var r := TokenAt(s);
    if r.token.Eof? || r.token.Error? then [r.token] else [r.token] + Tokens(r.rest)
  }

  // ----- values

  /** A value: a symbol, a string, or a list of fields in parentheses. */
  datatype Value = Word(text: string) | Text(text: string) | Group(fields: seq<Field>)

  datatype Field = Field(name: string, value: Value)

  function Spelled(v: Value): seq<Token> {
    match v
    case Word(t) => [Symbol(t)]
    case Text(t) => [Quoted(t)]
    case Group(fields) => [Open] + SpelledAll(fields) + [Close]
  }

  function SpelledAll(fields: seq<Field>): seq<Token> {
    if fields == [] then []
    else [Symbol(fields[0].name)] + Spelled(fields[0].value) + SpelledAll(fields[1..])
  }

  /** `info_skip_value`: what is left behind one value, None for an error. */
  function Skip(ts: seq<Token>): (r: Option<seq<Token>>)
    ensures r.Some? ==> |r.value| < |ts|
    decreases |ts|, 0
  {
    if ts == [] then None
    else if ts[0].Symbol? || ts[0].Quoted? then Some(ts[1..])
    else if ts[0].Open? then SkipFields(ts[1..])
    else None
  }

  /** Its loop, up to and with the closing parenthesis. */
  function SkipFields(ts: seq<Token>): (r: Option<seq<Token>>)
    ensures r.Some? ==> |r.value| < |ts|
    decreases |ts|, 1
  {
    if ts == [] then None
    else if ts[0].Close? then Some(ts[1..])
    else if !ts[0].Symbol? then None
    else
      match Skip(ts[1..])
      case None => None
      case Some(rest) => SkipFields(rest)
  }

  /** A spelled value is skipped as a whole. */
  lemma {:induction false} SkipSpelled(v: Value, rest: seq<Token>)
    ensures Skip(Spelled(v) + rest) == Some(rest)
    decreases v, 0
  {
    var ts := Spelled(v) + rest;
    match v
    case Word(_) => assert ts[1..] == rest;
    case Text(_) => assert ts[1..] == rest;
    case Group(fields) =>
      assert ts[1..] == SpelledAll(fields) + [Close] + rest;
      SkipSpelledAll(fields, rest);
  }

  lemma {:induction false} SkipSpelledAll(fields: seq<Field>, rest: seq<Token>)
    ensures SkipFields(SpelledAll(fields) + [Close] + rest) == Some(rest)
    decreases fields, 1
  {
    var ts := SpelledAll(fields) + [Close] + rest;
    if fields == [] {
      assert ts[1..] == rest;
    } else {
      var more := SpelledAll(fields[1..]) + [Close] + rest;
      assert ts[0] == Symbol(fields[0].name) && ts[1..] == Spelled(fields[0].value) + more;
      SkipSpelled(fields[0].value, more);
      SkipSpelledAll(fields[1..], rest);
    }
  }

  /** What is skipped is a spelled value. */
  lemma {:induction false} SkippedIsSpelled(ts: seq<Token>) returns (v: Value)
    requires Skip(ts).Some?
    ensures ts == Spelled(v) + Skip(ts).value
    decreases |ts|, 0
  {
    if ts[0].Symbol? {
      v := Word(ts[0].text);
      assert ts == [ts[0]] + ts[1..];
    } else if ts[0].Quoted? {
      v := Text(ts[0].text);
      assert ts == [ts[0]] + ts[1..];
    } else {
      var fields := SkippedFields(ts[1..]);
      v := Group(fields);
      assert ts == [Open] + ts[1..];
    }
  }

  lemma {:induction false} SkippedFields(ts: seq<Token>) returns (fields: seq<Field>)
    requires SkipFields(ts).Some?
    ensures ts == SpelledAll(fields) + [Close] + SkipFields(ts).value
    decreases |ts|, 1
  {
    assert ts == [ts[0]] + ts[1..];
    if ts[0].Close? {
      fields := [];
    } else {
      var v := SkippedIsSpelled(ts[1..]);
      var rest := Skip(ts[1..]).value;
      var more := SkippedFields(rest);
      fields := [Field(ts[0].text, v)] + more;
      assert fields[1..] == more;
      assert ts[1..] == Spelled(v) + rest;
      assert SpelledAll(fields) == [ts[0]] + Spelled(v) + SpelledAll(more);
    }
  }

  /** A value and what is behind it. */
  predicate Starts(ts: seq<Token>, v: Value, rest: seq<Token>) { ts == Spelled(v) + rest }

  /** `info_skip_value` consumes exactly one balanced value, and reports an error exactly
      when there is none. */
  lemma SkipExactly(ts: seq<Token>)
    ensures forall rest :: Skip(ts) == Some(rest) <==> exists v :: Starts(ts, v, rest)
    ensures Skip(ts).None? <==> forall v, rest :: !Starts(ts, v, rest)
  {
    if Skip(ts).Some? {
      var v := SkippedIsSpelled(ts);
      assert Starts(ts, v, Skip(ts).value);
    }
    forall v, rest | Starts(ts, v, rest)
      ensures Skip(ts) == Some(rest)
    {
      SkipSpelled(v, rest);
    }
  }
}
