/** The reader of the INFO form, character by character with one character put back
    (lib/readinfo.c:108-267). */
module InfoReader {
  import opened Wrappers
  import opened InfoTokens

  class Reader {
    const input: string
    var pos: nat
    var buf: string

    ghost predicate Valid()
      reads this
    {
      pos <= |input|
    }

    /** The characters not read yet. */
    ghost function Left(): string
      requires Valid()
      reads this
    {
      input[pos..]
    }

    /** The tokens not read yet. */
    ghost function Ahead(): seq<Token>
      requires Valid()
      reads this
    {
      Tokens(Left())
    }

    constructor (input: string)
      ensures Valid() && this.input == input && Left() == input
    {
      this.input, pos, buf := input, 0, "";
    }

    /** `info_getc`: None for the end of the file. */
    method GetC() returns (c: Option<char>)
      requires Valid()
      modifies this`pos
      ensures Valid()
      ensures if old(Left()) == "" then c == None && Left() == ""
              else c == Some(old(Left())[0]) && Left() == old(Left())[1..] && pos == old(pos) + 1
    {
      if pos == |input| {
        return None;
      }
      c := Some(input[pos]);
      pos := pos + 1;
    }

    /** `get_symbol`: from the character `first` on. */
    method GetSymbol(first: char) returns (t: Token)
      requires Valid() && !Ends(first)
      modifies this
      ensures Valid() && Read(t, Left()) == SymbolFrom([first], old(Left()))
    {
      buf := [first];
      var c := GetC();
      ghost var all, before := SymbolFrom([first], old(Left())), old(Left());
      while c.Some? && !Ends(c.value)
        invariant Valid() && (c.Some? ==> before != "" && before[0] == c.value && Left() == before[1..])
        invariant c.Some? ==> 0 < pos && before == input[pos - 1..]
        invariant c.None? ==> before == "" && Left() == ""
        invariant all == SymbolFrom(buf, before)
        decreases |before|
      {
        buf := buf + [c.value];
        before := Left();
        c := GetC();
      }
      if c.Some? && !IsSpace(c.value) {
        pos := pos - 1;
      }
      t := Symbol(buf);
    }

    /** The escape behind a backslash, added to the buffer. */
    method GetEscape() returns (ok: bool)
      requires Valid()
      modifies this
      ensures Valid() && var s := old(Left());
              if |s| > 2 && s[0] == 'x' && IsHexDigit(s[1]) && IsHexDigit(s[2]) then
                ok && buf == old(buf) + [(HexDigit(s[1]) * 16 + HexDigit(s[2])) as char] && Left() == s[3..]
              else if |s| > 0 && s[0] != 'x' && Escape(s[0]) != "" then
                ok && buf == old(buf) + Escape(s[0]) && Left() == s[1..]
              else !ok
    {
      var c := GetC();
      if c.None? {
        return false;
      }
      if c.value == 'x' {
        var d0 := GetC();
        if d0.None? || !IsHexDigit(d0.value) {
          return false;
        }
        var d1 := GetC();
        if d1.None? || !IsHexDigit(d1.value) {
          return false;
        }
        buf := buf + [(HexDigit(d0.value) * 16 + HexDigit(d1.value)) as char];
        return true;
      }
      var e := Escape(c.value);
      buf := buf + e;
      return e != "";
    }

    /** `get_string` */
    method GetString() returns (t: Token)
      requires Valid() && buf == ""
      modifies this
      ensures Valid() && t == StringFrom("", old(Left())).token
      ensures !t.Error? ==> Left() == StringFrom("", old(Left())).rest
    {
      ghost var all, before := StringFrom("", Left()), Left();
      var c := GetC();
      while c.Some? && c.value != '"'
        invariant Valid() && (c.Some? ==> before != "" && before[0] == c.value && Left() == before[1..])
        invariant c.None? ==> before == "" && Left() == ""
        invariant all == StringFrom(buf, before)
        decreases |before|
      {
        if c.value == '\\' {
          ghost var s := Left();
          assert before == ['\\'] + s;
          var ok := GetEscape();
          if !ok {
            return Error;
          }
        } else {
          buf := buf + [c.value];
        }
        before := Left();
        c := GetC();
      }
      if c.None? {
        return Error;
      }
      t := Quoted(buf);
    }

    /** `info_token_get` */
    method TokenGet() returns (t: Token)
      requires Valid()
      modifies this
      ensures Valid() && t == old(Ahead())[0]
      ensures if t.Eof? || t.Error? then old(Ahead()) == [t] else old(Ahead()) == [t] + Ahead()
    {
      ghost var all, before := TokenAt(Left()), Left();
      var c := GetC();
      buf := "";
      while c.Some? && IsSpace(c.value)
        invariant Valid() && buf == "" && (c.Some? ==> before != "" && before[0] == c.value && Left() == before[1..])
        invariant c.None? ==> before == "" && Left() == ""
        invariant all == TokenAt(before)
        decreases |before|
      {
        before := Left();
        c := GetC();
      }
      match c
      case None => t := Eof;
      case Some(ch) =>
        if ch == '(' {
          t := Open;
        } else if ch == ')' {
          t := Close;
        } else if ch == '"' {
          t := GetString();
        } else {
          t := GetSymbol(ch);
        }
    }

    /** `info_skip_value` */
    method SkipValue() returns (ok: bool)
      requires Valid()
      modifies this
      ensures Valid() && ok == Skip(old(Ahead())).Some?
      ensures ok ==> Ahead() == Skip(old(Ahead())).value
      decreases |Ahead()|
    {
      ghost var all := Ahead();
      var t := TokenGet();
      match t
      case Open =>
        assert all[1..] == Ahead();
        ghost var before := Ahead();
        t := TokenGet();
        if t.Error? {
          return false;
        }
        while !t.Close?
          invariant Valid() && before != [] && before[0] == t && |before| < |all| && Skip(all) == SkipFields(before)
          invariant if t.Eof? || t.Error? then before == [t] else before == [t] + Ahead()
          decreases |before|
        {
          if !t.Symbol? {
            return false;
          }
          assert before[1..] == Ahead();
          ok := SkipValue();
          if !ok {
            return;
          }
          before := Ahead();
          t := TokenGet();
          if t.Error? {
            return false;
          }
        }
        assert before[1..] == Ahead();
        ok := true;
      case Symbol(_) | Quoted(_) =>
        assert all[1..] == Ahead();
        ok := true;
      case _ => ok := false;
    }
  }
}
