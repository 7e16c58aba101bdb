/** Games in the INFO form: the loader (gameinfo.cc:41-143) with its number readers
    (strcov.c:65-104). */
module InfoLoad {
  import opened Wrappers
  import opened InfoTokens
  import opened InfoReader

  datatype Rom = Rom(size: nat, crc: nat, nodump: bool)

  /** A game; `texts` are its other fields by name. */
  datatype Game = Game(name: string, resource: bool, working: bool, texts: map<string, string>,
                       roms: map<string, Rom>, samples: set<string>)

  const NO_ROM := Rom(0, 0, false)

  function NewGame(resource: bool): Game { Game("", resource, true, map[], map[], {}) }

  /** Insertion into a set ordered by name: what is there already stays. */
  function Insert<T>(m: map<string, T>, name: string, t: T): map<string, T> {
    if name in m then m else m[name := t]
  }

  // ----- numbers of 32 bits

  const LIMIT := 0x1_0000_0000

  predicate IsDigit(c: char) { '0' <= c <= '9' }

  /** The number that decimal or hexadecimal digits stand for, without limit. */
  function Number(s: string, base: nat): (n: nat)
    requires (base == 10 && forall c | c in s :: IsDigit(c)) || (base == 16 && forall c | c in s :: IsHexDigit(c))
  {
    if s == "" then 0
    else
      var k := |s| - 1;
      assert s[k] in s;
      Number(s[..k], base) * base + HexDigit(s[k])
  }

  /** `strdec` and `strhex` on a whole text, None if it is no number. */
  function DecOf(s: string): Option<nat> {
    if forall c | c in s :: IsDigit(c) then Some(Number(s, 10) % LIMIT) else None
  }

  function HexOf(s: string): Option<nat> {
    var n := if |s| > 1 && s[0] == '0' && s[1] == 'x' then s[2..] else s;
    if forall c | c in n :: IsHexDigit(c) then Some(Number(n, 16) % LIMIT) else None
  }

  /** Unsigned arithmetic of 32 bits keeps the low bits of the exact result. */
  lemma Wraps(n: nat, base: nat, d: nat)
    ensures (n % LIMIT * base + d) % LIMIT == (n * base + d) % LIMIT
  {
    var q := n / LIMIT;
    assert n == q * LIMIT + n % LIMIT;
    assert n * base + d == (n % LIMIT * base + d) + LIMIT * (q * base);
    SameLow(n % LIMIT * base + d, q * base);
  }

  lemma SameLow(x: nat, k: nat)
    ensures (x + LIMIT * k) % LIMIT == x % LIMIT
  {
    var y := x / LIMIT;
    assert x + LIMIT * k == LIMIT * (y + k) + x % LIMIT;
  }

  /** `strdec`: the number, and where it ends. */
  method StrDec(s: string) returns (v: nat, e: nat)
    ensures e <= |s| && (e == |s| <==> DecOf(s).Some?) && v < LIMIT
    ensures e == |s| ==> DecOf(s) == Some(v)
  {
    v, e := 0, 0;
    while e < |s|
      invariant e <= |s| && (forall c | c in s[..e] :: IsDigit(c)) && v == Number(s[..e], 10) % LIMIT
    {
      if !IsDigit(s[e]) {
        assert s[e] in s;
        return 0, e;
      }
      assert s[..e + 1][..e] == s[..e] && s[..e + 1] == s[..e] + [s[e]];
      Wraps(Number(s[..e], 10), 10, HexDigit(s[e]));
      v := (v * 10 + HexDigit(s[e])) % LIMIT;
      e := e + 1;
    }
    assert s[..e] == s;
  }

  /** `strhex` */
  method StrHex(s: string) returns (v: nat, e: nat)
    ensures e <= |s| && v < LIMIT && (e == |s| <==> forall c | c in s :: IsHexDigit(c))
    ensures e == |s| ==> v == Number(s, 16) % LIMIT
  {
    v, e := 0, 0;
    while e < |s|
      invariant e <= |s| && (forall c | c in s[..e] :: IsHexDigit(c)) && v == Number(s[..e], 16) % LIMIT
    {
      if !IsHexDigit(s[e]) {
        assert s[e] in s;
        return;
      }
      assert s[..e + 1][..e] == s[..e] && s[..e + 1] == s[..e] + [s[e]];
      Wraps(Number(s[..e], 16), 16, HexDigit(s[e]));
      v := (v * 16 + HexDigit(s[e])) % LIMIT;
      e := e + 1;
    }
    assert s[..e] == s;
  }

  // ----- what a token list means

  datatype RomRead = RomRead(name: string, rom: Rom, rest: seq<Token>)

  datatype GameRead = GameRead(g: Game, rest: seq<Token>)

  /** The text of the symbol at the front. */
  function Word1(ts: seq<Token>): Option<string> { if ts != [] && ts[0].Symbol? then Some(ts[0].text) else None }

  /** The value of the field `key` of a rom. */
  function RomField(key: string, ts: seq<Token>, name: string, rom: Rom): (r: Option<RomRead>)
    ensures r.Some? ==> |r.value.rest| < |ts|
  {
    if key == "name" || key == "size" || key == "crc" || key == "flags" then
      var w := Word1(ts);
      if w.None? then None
      else if key == "name" then Some(RomRead(w.value, rom, ts[1..]))
      else if key == "size" then
        var n := DecOf(w.value);
        if n.None? then None else Some(RomRead(name, rom.(size := n.value), ts[1..]))
      else if key == "crc" then
        var n := HexOf(w.value);
        if n.None? then None else Some(RomRead(name, rom.(crc := n.value), ts[1..]))
      else Some(RomRead(name, if w.value == "nodump" then rom.(nodump := true) else rom, ts[1..]))
    else
      match Skip(ts)
      case None => None
      case Some(rest) => Some(RomRead(name, rom, rest))
  }

  function RomFrom(ts: seq<Token>, name: string, rom: Rom): (r: Option<RomRead>)
    ensures r.Some? ==> |r.value.rest| < |ts|
    decreases |ts|
  {
    if ts == [] then None
    else if ts[0].Close? then Some(RomRead(name, rom, ts[1..]))
    else if !ts[0].Symbol? then None
    else
      match RomField(ts[0].text, ts[1..], name, rom)
      case None => None
      case Some(r) => RomFrom(r.rest, r.name, r.rom)
  }

  /** The fields of `driver`: whether the game is still taken to work. */
  function DriverFrom(ts: seq<Token>, working: bool): (r: Option<(bool, seq<Token>)>)
    ensures r.Some? ==> |r.value.1| < |ts|
    decreases |ts|
  {
    if ts == [] then None
    else if ts[0].Close? then Some((working, ts[1..]))
    else if !ts[0].Symbol? then None
    else if ts[0].text == "status" then
      var w := Word1(ts[1..]);
      if w.None? then None else DriverFrom(ts[2..], working && w.value != "preliminary")
    else
      match Skip(ts[1..])
      case None => None
      case Some(rest) => DriverFrom(rest, working)
  }

  predicate IsStringField(key: string) { key == "description" || key == "manufacturer" }

  predicate IsSymbolField(key: string) { key == "year" || key == "cloneof" || key == "romof" || key == "sampleof" }

  /** The value of the field `key` of a game. */
  function GameField(key: string, ts: seq<Token>, g: Game): (r: Option<GameRead>)
    ensures r.Some? ==> |r.value.rest| < |ts|
  {
    if ts == [] then None
    else if key == "name" then if ts[0].Symbol? then Some(GameRead(g.(name := ts[0].text), ts[1..])) else None
    else if IsStringField(key) then
      if ts[0].Quoted? then Some(GameRead(g.(texts := g.texts[key := ts[0].text]), ts[1..])) else None
    else if IsSymbolField(key) then
      if ts[0].Symbol? then Some(GameRead(g.(texts := g.texts[key := ts[0].text]), ts[1..])) else None
    else if key == "rom" then
      if !ts[0].Open? then None
      else
        match RomFrom(ts[1..], "", NO_ROM)
        case None => None
        case Some(r) => Some(GameRead(g.(roms := Insert(g.roms, r.name, r.rom)), r.rest))
    else if key == "driver" then
      if !ts[0].Open? then None
      else
        match DriverFrom(ts[1..], g.working)
        case None => None
        case Some(r) => Some(GameRead(g.(working := r.0), r.1))
    else if key == "sample" then
      if ts[0].Symbol? then Some(GameRead(g.(samples := g.samples + {ts[0].text}), ts[1..])) else None
    else
      match Skip(ts)
      case None => None
      case Some(rest) => Some(GameRead(g, rest))
  }

  function GameFrom(ts: seq<Token>, g: Game): (r: Option<GameRead>)
    ensures r.Some? ==> |r.value.rest| < |ts|
    decreases |ts|
  {
    if ts == [] then None
    else if ts[0].Close? then Some(GameRead(g, ts[1..]))
    else if !ts[0].Symbol? then None
    else
      match GameField(ts[0].text, ts[1..], g)
      case None => None
      case Some(r) => GameFrom(r.rest, r.g)
  }

  predicate IsGameKey(key: string) { key == "game" || key == "resource" || key == "machine" }

  /** The games of a token list that ends with the end of the file, added to `games`. */
  function AllFrom(ts: seq<Token>, games: map<string, Game>): Option<map<string, Game>>
    decreases |ts|
  {
    if ts == [] then None
    else if ts[0].Eof? then Some(games)
    else if !ts[0].Symbol? then None
    else if IsGameKey(ts[0].text) then
      if |ts| < 2 || !ts[1].Open? then None
      else
        match GameFrom(ts[2..], NewGame(ts[0].text == "resource"))
        case None => None
        case Some(r) => AllFrom(r.rest, Insert(games, r.g.name, r.g))
    else
      match Skip(ts[1..])
      case None => None
      case Some(rest) => AllFrom(rest, games)
  }

  // ----- the loader

  /** The tokens behind a token that was read. */
  lemma Behind(all: seq<Token>, t: Token, rest: seq<Token>)
    requires all == [t] + rest
    ensures all != [] && all[0] == t && all[1..] == rest
  {
  }

  class GameArchive {
    var games: map<string, Game>

    constructor ()
      ensures games == map[]
    {
      games := map[];
    }

    method ReadWord(r: Reader) returns (w: Option<string>)
      requires r.Valid()
      modifies r
      ensures r.Valid() && w == Word1(old(r.Ahead())) && (w.Some? ==> r.Ahead() == old(r.Ahead())[1..])
    {
      ghost var all := r.Ahead();
      var t := r.TokenGet();
      if !t.Symbol? {
        return None;
      }
      Behind(all, t, r.Ahead());
      return Some(t.text);
    }

    /** One field of a rom. */
    method LoadRomField(r: Reader, key: string, name: string, rom: Rom) returns (ok: bool, name': string, rom': Rom)
      requires r.Valid()
      modifies r
      ensures r.Valid() && ok == RomField(key, old(r.Ahead()), name, rom).Some?
      ensures ok ==> RomField(key, old(r.Ahead()), name, rom) == Some(RomRead(name', rom', r.Ahead()))
    {
      ok, name', rom' := true, name, rom;
      if key == "name" || key == "size" || key == "crc" || key == "flags" {
        var w := ReadWord(r);
        if w.None? {
          return false, name, rom;
        }
        if key == "name" {
          name' := w.value;
        } else if key == "size" {
          var v, e := StrDec(w.value);
          if e != |w.value| {
            return false, name, rom;
          }
          rom' := rom.(size := v);
        } else if key == "crc" {
          var n := w.value;
          if |n| > 1 && n[0] == '0' && n[1] == 'x' {
            n := n[2..];
          }
          var v, e := StrHex(n);
          if e != |n| {
            return false, name, rom;
          }
          rom' := rom.(crc := v);
        } else if w.value == "nodump" {
          rom' := rom.(nodump := true);
        }
      } else {
        ok := r.SkipValue();
      }
    }

    /** The fields of a rom, up to and with the closing parenthesis. */
    method LoadRom(r: Reader) returns (ok: bool, name: string, rom: Rom)
      requires r.Valid()
      modifies r
      ensures r.Valid() && ok == RomFrom(old(r.Ahead()), "", NO_ROM).Some?
      ensures ok ==> RomFrom(old(r.Ahead()), "", NO_ROM) == Some(RomRead(name, rom, r.Ahead()))
    {
      name, rom := "", NO_ROM;
      ghost var whole, all := RomFrom(r.Ahead(), "", NO_ROM), r.Ahead();
      var token := r.TokenGet();
      while !token.Close?
        invariant r.Valid() && all != [] && all[0] == token && whole == RomFrom(all, name, rom)
        invariant if token.Eof? || token.Error? then all == [token] else all == [token] + r.Ahead()
        decreases |all|
      {
        if !token.Symbol? {
          return false, name, rom;
        }
        Behind(all, token, r.Ahead());
        ok, name, rom := LoadRomField(r, token.text, name, rom);
        if !ok {
          return;
        }
        all := r.Ahead();
        token := r.TokenGet();
      }
      Behind(all, token, r.Ahead());
      ok := true;
    }

    /** The fields of `driver`. */
    method LoadDriver(r: Reader, start: bool) returns (ok: bool, working: bool)
      requires r.Valid()
      modifies r
      ensures r.Valid() && ok == DriverFrom(old(r.Ahead()), start).Some?
      ensures ok ==> DriverFrom(old(r.Ahead()), start) == Some((working, r.Ahead()))
    {
      working := start;
      ghost var whole, all := DriverFrom(r.Ahead(), start), r.Ahead();
      var token := r.TokenGet();
      while !token.Close?
        invariant r.Valid() && all != [] && all[0] == token && whole == DriverFrom(all, working)
        invariant if token.Eof? || token.Error? then all == [token] else all == [token] + r.Ahead()
        decreases |all|
      {
        if !token.Symbol? {
          return false, working;
        }
        Behind(all, token, r.Ahead());
        if token.text == "status" {
          var w := ReadWord(r);
          if w.None? {
            return false, working;
          }
          assert all[2..] == all[1..][1..];
          if w.value == "preliminary" {
            working := false;
          }
        } else {
          ok := r.SkipValue();
          if !ok {
            return;
          }
        }
        all := r.Ahead();
        token := r.TokenGet();
      }
      Behind(all, token, r.Ahead());
      ok := true;
    }

    /** One field of a game. */
    method LoadGameField(r: Reader, key: string, g: Game) returns (ok: bool, g': Game)
      requires r.Valid()
      modifies r
      ensures r.Valid() && ok == GameField(key, old(r.Ahead()), g).Some?
      ensures ok ==> GameField(key, old(r.Ahead()), g) == Some(GameRead(g', r.Ahead()))
    {
      ghost var all := r.Ahead();
      ok, g' := true, g;
      if key == "name" || IsStringField(key) || IsSymbolField(key) || key == "sample" {
        var t := r.TokenGet();
        if if IsStringField(key) then !t.Quoted? else !t.Symbol? {
          return false, g;
        }
        Behind(all, t, r.Ahead());
        g' := if key == "name" then g.(name := t.text)
              else if key == "sample" then g.(samples := g.samples + {t.text})
              else g.(texts := g.texts[key := t.text]);
      } else if key == "rom" || key == "driver" {
        var t := r.TokenGet();
        if !t.Open? {
          return false, g;
        }
        Behind(all, t, r.Ahead());
        if key == "rom" {
          var name, rom;
          ok, name, rom := LoadRom(r);
          g' := g.(roms := Insert(g.roms, name, rom));
        } else {
          var working;
          ok, working := LoadDriver(r, g.working);
          g' := g.(working := working);
        }
      } else {
        ok := r.SkipValue();
      }
    }

    /** The fields of a game, up to and with the closing parenthesis. */
    method LoadGame(r: Reader, start: Game) returns (ok: bool, g: Game)
      requires r.Valid()
      modifies r
      ensures r.Valid() && ok == GameFrom(old(r.Ahead()), start).Some?
      ensures ok ==> GameFrom(old(r.Ahead()), start) == Some(GameRead(g, r.Ahead()))
    {
      g := start;
      ghost var whole, all := GameFrom(r.Ahead(), start), r.Ahead();
      var token := r.TokenGet();
      while !token.Close?
        invariant r.Valid() && all != [] && all[0] == token && whole == GameFrom(all, g)
        invariant if token.Eof? || token.Error? then all == [token] else all == [token] + r.Ahead()
        decreases |all|
      {
        if !token.Symbol? {
          return false, g;
        }
        Behind(all, token, r.Ahead());
        ok, g := LoadGameField(r, token.text, g);
        if !ok {
          return;
        }
        all := r.Ahead();
        token := r.TokenGet();
      }
      Behind(all, token, r.Ahead());
      ok := true;
    }

    /** `load_info_internal` */
    method LoadInfo(r: Reader) returns (ok: bool)
      requires r.Valid()
      modifies this, r
      ensures ok == AllFrom(old(r.Ahead()), old(games)).Some?
      ensures ok ==> AllFrom(old(r.Ahead()), old(games)) == Some(games)
    {
      ghost var whole, all := AllFrom(r.Ahead(), games), r.Ahead();
      var token := r.TokenGet();
      while !token.Eof?
        invariant r.Valid() && all != [] && all[0] == token && whole == AllFrom(all, games)
        invariant if token.Eof? || token.Error? then all == [token] else all == [token] + r.Ahead()
        decreases |all|
      {
        if !token.Symbol? {
          return false;
        }
        Behind(all, token, r.Ahead());
        if IsGameKey(token.text) {
          ghost var rest := r.Ahead();
          var t := r.TokenGet();
          if !t.Open? {
            return false;
          }
          Behind(rest, t, r.Ahead());
          assert all[2..] == rest[1..];
          var g;
          ok, g := LoadGame(r, NewGame(token.text == "resource"));
          if !ok {
            return;
          }
          games := Insert(games, g.name, g);
        } else {
          ok := r.SkipValue();
          if !ok {
            return;
          }
        }
        all := r.Ahead();
        token := r.TokenGet();
      }
      ok := true;
    }
  }
}
