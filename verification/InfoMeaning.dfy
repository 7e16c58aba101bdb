/** What a listing says, told from its fields and without the reader: which fields are
    legal, and the games that they describe (gameinfo.cc:41-143). */
module InfoMeaning {
  import opened Wrappers
  import opened InfoTokens
  import opened InfoLoad

  // ----- fields

  ghost predicate Has(fields: seq<Field>, name: string, value: Value) { Field(name, value) in fields }

  ghost predicate Named(fields: seq<Field>, name: string) {
    exists i | 0 <= i < |fields| :: fields[i].name == name
  }

  /** The text of the last field of a name. */
  function Last(fields: seq<Field>, name: string, other: string): string {
    if fields == [] then other
    else
      var f := fields[|fields| - 1];
      if f.name == name && !f.value.Group? then f.value.text else Last(fields[..|fields| - 1], name, other)
  }

  // ----- legal fields

  ghost predicate LegalRom(fields: seq<Field>) {
    forall i | 0 <= i < |fields| :: LegalRomField(fields[i])
  }

  ghost predicate LegalRomField(f: Field) {
    && (f.name in {"name", "size", "crc", "flags"} ==> f.value.Word?)
    && (f.name == "size" ==> DecOf(f.value.text).Some?)
    && (f.name == "crc" ==> HexOf(f.value.text).Some?)
  }

  ghost predicate LegalDriver(fields: seq<Field>) {
    forall i | 0 <= i < |fields| :: LegalDriverField(fields[i])
  }

  ghost predicate LegalDriverField(f: Field) { f.name == "status" ==> f.value.Word? }

  ghost predicate LegalGame(fields: seq<Field>) {
    forall i | 0 <= i < |fields| :: LegalGameField(fields[i])
  }

  ghost predicate LegalGameField(f: Field) {
    && (f.name in {"name", "year", "cloneof", "romof", "sampleof", "sample"} ==> f.value.Word?)
    && (f.name in {"description", "manufacturer"} ==> f.value.Text?)
    && (f.name == "rom" ==> f.value.Group? && LegalRom(f.value.fields))
    && (f.name == "driver" ==> f.value.Group? && LegalDriver(f.value.fields))
  }

  // ----- the meaning of legal fields

  /** The last size and crc, and whether any flag is `nodump`. */
  ghost predicate RomIs(fields: seq<Field>, rom: Rom) {
    && DecOf(Last(fields, "size", "0")) == Some(rom.size)
    && HexOf(Last(fields, "crc", "0")) == Some(rom.crc)
    && (rom.nodump <==> Has(fields, "flags", Word("nodump")))
  }

  ghost predicate Preliminary(f: Field) {
    f.name == "driver" && f.value.Group? && Has(f.value.fields, "status", Word("preliminary"))
  }

  /** A game works unless some driver says `status preliminary`. */
  ghost predicate WorkingIs(fields: seq<Field>, working: bool) {
    working <==> !exists i | 0 <= i < |fields| :: Preliminary(fields[i])
  }

  /** The other texts are those of the last field of each name. */
  ghost predicate TextsAre(fields: seq<Field>, texts: map<string, string>) {
    && (forall key :: key in texts <==> IsText(key) && Named(fields, key))
    && (forall key | key in texts :: texts[key] == Last(fields, key, ""))
  }

  ghost predicate IsText(key: string) {
    key in {"description", "manufacturer", "year", "cloneof", "romof", "sampleof"}
  }

  ghost predicate SamplesAre(fields: seq<Field>, samples: set<string>) {
    forall s :: s in samples <==> Has(fields, "sample", Word(s))
  }

  ghost predicate RomNamed(f: Field, name: string) {
    f.name == "rom" && f.value.Group? && Last(f.value.fields, "name", "") == name
  }

  ghost predicate FirstRom(fields: seq<Field>, name: string, i: int) {
    0 <= i < |fields| && RomNamed(fields[i], name) && forall j | 0 <= j < i :: !RomNamed(fields[j], name)
  }

  /** Of the roms with the same name the first counts. */
  ghost predicate RomsAre(fields: seq<Field>, roms: map<string, Rom>) {
    && (forall name :: name in roms <==> exists i :: FirstRom(fields, name, i))
    && (forall name, i | FirstRom(fields, name, i) && name in roms :: RomIs(fields[i].value.fields, roms[name]))
  }

  ghost predicate Means(fields: seq<Field>, resource: bool, g: Game) {
    && g.name == Last(fields, "name", "")
    && g.resource == resource
    && WorkingIs(fields, g.working)
    && TextsAre(fields, g.texts)
    && SamplesAre(fields, g.samples)
    && RomsAre(fields, g.roms)
  }

  // ----- one more field

  lemma LastNext(fields: seq<Field>, f: Field, name: string, other: string)
    ensures Last(fields + [f], name, other) ==
            if f.name == name && !f.value.Group? then f.value.text else Last(fields, name, other)
  {
    assert (fields + [f])[..|fields|] == fields;
  }

  lemma NamedNext(fields: seq<Field>, f: Field, name: string)
    ensures Named(fields + [f], name) <==> Named(fields, name) || f.name == name
  {
    var more := fields + [f];
    assert more[|fields|] == f;
    if Named(fields, name) {
      var i :| 0 <= i < |fields| && fields[i].name == name;
      assert more[i].name == name;
    }
  }

  lemma WorkingNext(fields: seq<Field>, f: Field, working: bool)
    requires WorkingIs(fields, working)
    ensures WorkingIs(fields + [f], working && !Preliminary(f))
  {
    var more := fields + [f];
    assert more[|fields|] == f;
    forall i | 0 <= i < |fields|
      ensures more[i] == fields[i]
    {
    }
  }

  lemma TextsNext(fields: seq<Field>, f: Field, texts: map<string, string>)
    requires TextsAre(fields, texts) && LegalGameField(f)
    ensures TextsAre(fields + [f], if IsText(f.name) then texts[f.name := f.value.text] else texts)
  {
    forall key
      ensures Named(fields + [f], key) <==> Named(fields, key) || f.name == key
      ensures Last(fields + [f], key, "") ==
              if f.name == key && !f.value.Group? then f.value.text else Last(fields, key, "")
    {
      NamedNext(fields, f, key);
      LastNext(fields, f, key, "");
    }
  }

  lemma SamplesNext(fields: seq<Field>, f: Field, samples: set<string>)
    requires SamplesAre(fields, samples) && LegalGameField(f)
    ensures SamplesAre(fields + [f], if f.name == "sample" then samples + {f.value.text} else samples)
  {
  }

  lemma FirstRomNext(fields: seq<Field>, f: Field, name: string, i: int)
    ensures FirstRom(fields + [f], name, i) <==>
            FirstRom(fields, name, i) || (i == |fields| && RomNamed(f, name) && !exists j :: FirstRom(fields, name, j))
  {
    var more := fields + [f];
    forall j | 0 <= j < |fields|
      ensures more[j] == fields[j]
    {
    }
    if i == |fields| && RomNamed(f, name) && exists j | 0 <= j < |fields| :: RomNamed(fields[j], name) {
      var j :| 0 <= j < |fields| && RomNamed(fields[j], name);
      var k := HasFirst(fields, name, j);
    }
  }

  lemma {:induction false} HasFirst(fields: seq<Field>, name: string, i: int) returns (k: int)
    requires 0 <= i < |fields| && RomNamed(fields[i], name)
    ensures FirstRom(fields, name, k)
    decreases i
  {
    if j :| 0 <= j < i && RomNamed(fields[j], name) {
      k := HasFirst(fields, name, j);
    } else {
      k := i;
    }
  }

  lemma RomsNext(fields: seq<Field>, f: Field, roms: map<string, Rom>, rom: Rom)
    requires RomsAre(fields, roms) && f.name == "rom" && f.value.Group? && RomIs(f.value.fields, rom)
    ensures RomsAre(fields + [f], Insert(roms, Last(f.value.fields, "name", ""), rom))
  {
    var more, name := fields + [f], Last(f.value.fields, "name", "");
    var roms' := Insert(roms, name, rom);
    assert more[|fields|] == f;
    forall n, i
      ensures FirstRom(more, n, i) <==>
              FirstRom(fields, n, i) || (i == |fields| && RomNamed(f, n) && n !in roms)
      ensures 0 <= i < |fields| ==> more[i] == fields[i]
    {
      FirstRomNext(fields, f, n, i);
    }
    forall n
      ensures n in roms' <==> exists i :: FirstRom(more, n, i)
    {
      if n in roms {
        var i :| FirstRom(fields, n, i);
        assert FirstRom(more, n, i);
      } else if n == name {
        assert FirstRom(more, n, |fields|);
      }
    }
  }

  lemma RomsSame(fields: seq<Field>, f: Field, roms: map<string, Rom>)
    requires RomsAre(fields, roms) && f.name != "rom"
    ensures RomsAre(fields + [f], roms)
  {
    var more := fields + [f];
    forall n, i
      ensures FirstRom(more, n, i) <==> FirstRom(fields, n, i)
      ensures 0 <= i < |fields| ==> more[i] == fields[i]
    {
      FirstRomNext(fields, f, n, i);
    }
  }

  // ----- the reader takes legal fields to what they mean

  lemma Regroup(t: Token, v: seq<Token>, a: seq<Token>, b: seq<Token>, rest: seq<Token>)
    ensures var ts := [t] + v + a + b + rest; ts[0] == t && ts[1..] == v + (a + b + rest)
  {
    var ts := [t] + v + a + b + rest;
    assert ts == [t] + (v + (a + b + rest));
  }

  /** The tokens of a field, of its value, and behind it. */
  lemma FieldFirst(fields: seq<Field>, end: Token, rest: seq<Token>)
    requires fields != []
    ensures var ts, more := SpelledAll(fields) + [end] + rest, SpelledAll(fields[1..]) + [end] + rest;
            && ts[0] == Symbol(fields[0].name)
            && ts[1..] == Spelled(fields[0].value) + more
  {
    Regroup(Symbol(fields[0].name), Spelled(fields[0].value), SpelledAll(fields[1..]), [end], rest);
  }

  /** One more field in front of spelled fields. */
  lemma FieldBefore(ts: seq<Token>, v: Value, fields: seq<Field>, end: Token, rest: seq<Token>)
    requires ts != [] && ts[0].Symbol? && ts[1..] == Spelled(v) + (SpelledAll(fields) + [end] + rest)
    ensures ts == SpelledAll([Field(ts[0].text, v)] + fields) + [end] + rest
  {
    var all := [Field(ts[0].text, v)] + fields;
    assert all[1..] == fields;
    Regroup(ts[0], Spelled(v), SpelledAll(fields), [end], rest);
    assert ts == [ts[0]] + ts[1..];
    assert SpelledAll(all) == [ts[0]] + Spelled(v) + SpelledAll(fields);
    Split(SpelledAll(all) + [end] + rest);
  }

  lemma Split(ts: seq<Token>)
    requires ts != []
    ensures ts == [ts[0]] + ts[1..]
  {
  }

  lemma OpenFirst(v: Value, more: seq<Token>)
    ensures var ts := Spelled(v) + more;
            && ts != []
            && (v.Group? <==> ts[0].Open?)
            && (v.Group? ==> ts[1..] == SpelledAll(v.fields) + [Close] + more)
  {
  }

  /** A rom behind one more legal field. */
  ghost function RomAfter(f: Field, rom: Rom): Rom
    requires LegalRomField(f)
  {
    if f.name == "size" then rom.(size := DecOf(f.value.text).value)
    else if f.name == "crc" then rom.(crc := HexOf(f.value.text).value)
    else if f == Field("flags", Word("nodump")) then rom.(nodump := true)
    else rom
  }

  lemma RomNext(done: seq<Field>, f: Field, rom: Rom)
    requires RomIs(done, rom) && LegalRomField(f)
    ensures RomIs(done + [f], RomAfter(f, rom)) == true
  {
    LastNext(done, f, "size", "0");
    LastNext(done, f, "crc", "0");
  }

  lemma RomFieldIs(f: Field, more: seq<Token>, name: string, rom: Rom)
    ensures var r := RomField(f.name, Spelled(f.value) + more, name, rom);
            && (r.Some? <==> LegalRomField(f))
            && (r.Some? ==> r.value == RomRead(if f.name == "name" then f.value.text else name, RomAfter(f, rom), more))
  {
    var ts := Spelled(f.value) + more;
    if f.value.Word? {
      assert ts[0] == Symbol(f.value.text) && ts[1..] == more;
    }
    SkipSpelled(f.value, more);
  }

  lemma RomFieldReads(done: seq<Field>, f: Field, more: seq<Token>, name: string, rom: Rom)
    requires name == Last(done, "name", "") && RomIs(done, rom) == true
    ensures var r := RomField(f.name, Spelled(f.value) + more, name, rom);
            && (r.Some? == LegalRomField(f))
            && (r.Some? ==> r.value.rest == more && r.value.name == Last(done + [f], "name", "") &&
                            RomIs(done + [f], r.value.rom) == true)
  {
    RomFieldIs(f, more, name, rom);
    LastNext(done, f, "name", "");
    if LegalRomField(f) {
      RomNext(done, f, rom);
    }
  }

  lemma {:induction false} RomReads(done: seq<Field>, todo: seq<Field>, rest: seq<Token>, name: string, rom: Rom)
    requires name == Last(done, "name", "") && RomIs(done, rom)
    ensures var r := RomFrom(SpelledAll(todo) + [Close] + rest, name, rom);
            && (r.Some? <==> LegalRom(todo))
            && (r.Some? ==> r.value.rest == rest && r.value.name == Last(done + todo, "name", "") &&
                            RomIs(done + todo, r.value.rom))
    decreases |todo|
  {
    if todo == [] {
      assert done + todo == done;
      assert (SpelledAll(todo) + [Close] + rest)[1..] == rest;
    } else {
      var f, more := todo[0], SpelledAll(todo[1..]) + [Close] + rest;
      FieldFirst(todo, Close, rest);
      RomFieldReads(done, f, more, name, rom);
      assert LegalRom(todo) <==> LegalRomField(f) && LegalRom(todo[1..]);
      if LegalRomField(f) {
        var r := RomField(f.name, Spelled(f.value) + more, name, rom).value;
        assert (done + [f]) + todo[1..] == done + todo;
        RomReads(done + [f], todo[1..], rest, r.name, r.rom);
      }
    }
  }

  lemma {:induction false} DriverReads(fields: seq<Field>, rest: seq<Token>, working: bool)
    ensures var r := DriverFrom(SpelledAll(fields) + [Close] + rest, working);
            && (r.Some? <==> LegalDriver(fields))
            && (r.Some? ==> r.value == (working && !Has(fields, "status", Word("preliminary")), rest))
    decreases |fields|
  {
    if fields == [] {
      assert (SpelledAll(fields) + [Close] + rest)[1..] == rest;
    } else {
      var f, more := fields[0], SpelledAll(fields[1..]) + [Close] + rest;
      FieldFirst(fields, Close, rest);
      SkipSpelled(f.value, more);
      assert LegalDriver(fields) <==> LegalDriverField(f) && LegalDriver(fields[1..]);
      if f.name == "status" && f.value.Word? {
        assert (SpelledAll(fields) + [Close] + rest)[2..] == more;
        DriverReads(fields[1..], rest, working && f.value.text != "preliminary");
      } else {
        DriverReads(fields[1..], rest, working);
      }
    }
  }

  /** What a legal field changes. */
  ghost predicate Changes(f: Field, g: Game, g': Game) {
    && LegalGameField(f)
    && g'.name == (if f.name == "name" then f.value.text else g.name)
    && g'.resource == g.resource
    && g'.working == (g.working && !Preliminary(f))
    && g'.texts == (if IsText(f.name) then g.texts[f.name := f.value.text] else g.texts)
    && g'.samples == (if f.name == "sample" then g.samples + {f.value.text} else g.samples)
    && (f.name != "rom" ==> g'.roms == g.roms)
    && (f.name == "rom" ==> exists rom :: RomIs(f.value.fields, rom) &&
                                          g'.roms == Insert(g.roms, Last(f.value.fields, "name", ""), rom))
  }

  lemma GroupReads(f: Field, more: seq<Token>, g: Game)
    requires f.value.Group? && (f.name == "rom" || f.name == "driver")
    ensures var r := GameField(f.name, Spelled(f.value) + more, g);
            && (r.Some? <==> LegalGameField(f))
            && (r.Some? ==> r.value.rest == more && Changes(f, g, r.value.g))
  {
    OpenFirst(f.value, more);
    if f.name == "rom" {
      RomReads([], f.value.fields, more, "", NO_ROM);
      assert [] + f.value.fields == f.value.fields;
    } else {
      DriverReads(f.value.fields, more, g.working);
    }
  }

  lemma FieldReads(f: Field, more: seq<Token>, g: Game)
    ensures var r := GameField(f.name, Spelled(f.value) + more, g);
            && (r.Some? <==> LegalGameField(f))
            && (r.Some? ==> r.value.rest == more && Changes(f, g, r.value.g))
  {
    var ts := Spelled(f.value) + more;
    if f.value.Group? && (f.name == "rom" || f.name == "driver") {
      GroupReads(f, more, g);
    } else {
      OpenFirst(f.value, more);
      SkipSpelled(f.value, more);
      assert !f.value.Group? ==> ts[1..] == more;
    }
  }

  lemma MeansNext(done: seq<Field>, f: Field, resource: bool, g: Game, g': Game)
    requires Means(done, resource, g) && Changes(f, g, g')
    ensures Means(done + [f], resource, g') == true
  {
    LastNext(done, f, "name", "");
    WorkingNext(done, f, g.working);
    TextsNext(done, f, g.texts);
    SamplesNext(done, f, g.samples);
    if f.name == "rom" {
      var rom :| RomIs(f.value.fields, rom) && g'.roms == Insert(g.roms, Last(f.value.fields, "name", ""), rom);
      RomsNext(done, f, g.roms, rom);
    } else {
      RomsSame(done, f, g.roms);
    }
  }

  lemma GameFieldReads(done: seq<Field>, f: Field, more: seq<Token>, resource: bool, g: Game)
    requires Means(done, resource, g) == true
    ensures var r := GameField(f.name, Spelled(f.value) + more, g);
            && (r.Some? == LegalGameField(f))
            && (r.Some? ==> r.value.rest == more && Means(done + [f], resource, r.value.g) == true)
  {
    FieldReads(f, more, g);
    var r := GameField(f.name, Spelled(f.value) + more, g);
    if r.Some? {
      MeansNext(done, f, resource, g, r.value.g);
    }
  }

  /** `NewGame` is the meaning of no fields. */
  lemma NewMeans(resource: bool)
    ensures Means([], resource, NewGame(resource))
  {
  }

  /** What reads a game, behind legal fields or not. */
  function GameEnd(fields: seq<Field>, rest: seq<Token>, g: Game): Option<GameRead> {
    GameFrom(SpelledAll(fields) + [Close] + rest, g)
  }

  lemma GameStep(done: seq<Field>, todo: seq<Field>, rest: seq<Token>, resource: bool, g: Game)
      returns (legal: bool, g': Game)
    requires Means(done, resource, g) == true && todo != []
    ensures LegalGame(todo) == (legal && LegalGame(todo[1..]))
    ensures GameEnd(todo, rest, g) == if legal then GameEnd(todo[1..], rest, g') else None
    ensures legal ==> Means(done + [todo[0]], resource, g') == true
  {
    var f, more := todo[0], SpelledAll(todo[1..]) + [Close] + rest;
    FieldFirst(todo, Close, rest);
    GameFieldReads(done, f, more, resource, g);
    var r := GameField(f.name, Spelled(f.value) + more, g);
    legal, g' := r.Some?, if r.Some? then r.value.g else g;
  }

  lemma {:induction false} GameReads(done: seq<Field>, todo: seq<Field>, rest: seq<Token>, resource: bool, g: Game)
    requires Means(done, resource, g) == true
    ensures var r := GameEnd(todo, rest, g);
            && (r.Some? == LegalGame(todo))
            && (r.Some? ==> r.value.rest == rest && Means(done + todo, resource, r.value.g) == true)
    decreases |todo|
  {
    if todo == [] {
      assert done + todo == done;
      assert (SpelledAll(todo) + [Close] + rest)[1..] == rest;
    } else {
      var legal, g' := GameStep(done, todo, rest, resource, g);
      if legal {
        assert (done + [todo[0]]) + todo[1..] == done + todo;
        GameReads(done + [todo[0]], todo[1..], rest, resource, g');
      }
    }
  }

  /** Fields are read as a game exactly if they are legal, and the game is what they mean. */
  lemma GameMeans(fields: seq<Field>, rest: seq<Token>, resource: bool)
    ensures var r := GameFrom(SpelledAll(fields) + [Close] + rest, NewGame(resource));
            && (r.Some? <==> LegalGame(fields))
            && (r.Some? ==> r.value.rest == rest && Means(fields, resource, r.value.g))
  {
    NewMeans(resource);
    GameReads([], fields, rest, resource, NewGame(resource));
    assert [] + fields == fields;
  }

  /** Fields mean one game. */
  lemma MeansOne(fields: seq<Field>, resource: bool, g: Game, g': Game)
    requires Means(fields, resource, g) && Means(fields, resource, g')
    ensures g == g'
  {
    assert g.texts == g'.texts;
    assert g.samples == g'.samples;
    forall name | name in g.roms
      ensures name in g'.roms && g.roms[name] == g'.roms[name]
    {
      var i :| FirstRom(fields, name, i);
      assert RomIs(fields[i].value.fields, g.roms[name]);
      assert RomIs(fields[i].value.fields, g'.roms[name]);
    }
    forall name | name in g'.roms
      ensures name in g.roms
    {
      var i :| FirstRom(fields, name, i);
    }
    assert g.roms == g'.roms;
  }

  // ----- whatever is read is spelled fields

  lemma {:induction false} RomIsSpelled(ts: seq<Token>, name: string, rom: Rom) returns (fields: seq<Field>)
    requires RomFrom(ts, name, rom).Some?
    ensures ts == SpelledAll(fields) + [Close] + RomFrom(ts, name, rom).value.rest
    decreases |ts|
  {
    if ts[0].Close? {
      fields := [];
      Split(ts);
    } else {
      var r := RomField(ts[0].text, ts[1..], name, rom).value;
      var v := ValueSpelled(ts[1..], r.rest);
      var more := RomIsSpelled(r.rest, r.name, r.rom);
      fields := [Field(ts[0].text, v)] + more;
      FieldBefore(ts, v, more, Close, RomFrom(ts, name, rom).value.rest);
    }
  }

  /** A symbol, a string or what is skipped is a value. */
  lemma ValueSpelled(ts: seq<Token>, rest: seq<Token>) returns (v: Value)
    requires ts != [] && (((ts[0].Symbol? || ts[0].Quoted?) && rest == ts[1..]) || Skip(ts) == Some(rest))
    ensures ts == Spelled(v) + rest
  {
    assert Skip(ts) == Some(rest);
    v := SkippedIsSpelled(ts);
  }

  lemma {:induction false} DriverIsSpelled(ts: seq<Token>, working: bool) returns (fields: seq<Field>)
    requires DriverFrom(ts, working).Some?
    ensures ts == SpelledAll(fields) + [Close] + DriverFrom(ts, working).value.1
    decreases |ts|
  {
    if ts[0].Close? {
      fields := [];
      Split(ts);
    } else {
      var status := ts[0].text == "status";
      var rest := if status then ts[2..] else Skip(ts[1..]).value;
      assert status ==> ts[1..][1..] == rest;
      var v := ValueSpelled(ts[1..], rest);
      var more := DriverIsSpelled(rest, if status then working && ts[1].text != "preliminary" else working);
      fields := [Field(ts[0].text, v)] + more;
      FieldBefore(ts, v, more, Close, DriverFrom(ts, working).value.1);
    }
  }

  lemma GroupSpelled(key: string, ts: seq<Token>, g: Game) returns (v: Value)
    requires (key == "rom" || key == "driver") && GameField(key, ts, g).Some?
    ensures ts == Spelled(v) + GameField(key, ts, g).value.rest
  {
    var fields;
    if key == "rom" {
      fields := RomIsSpelled(ts[1..], "", NO_ROM);
    } else {
      fields := DriverIsSpelled(ts[1..], g.working);
    }
    v := Group(fields);
    Split(ts);
  }

  lemma GameFieldSpelled(key: string, ts: seq<Token>, g: Game) returns (v: Value)
    requires GameField(key, ts, g).Some?
    ensures ts == Spelled(v) + GameField(key, ts, g).value.rest
  {
    if key == "rom" || key == "driver" {
      v := GroupSpelled(key, ts, g);
    } else {
      v := ValueSpelled(ts, GameField(key, ts, g).value.rest);
    }
  }

  lemma {:induction false} GameIsSpelled(ts: seq<Token>, g: Game) returns (fields: seq<Field>)
    requires GameFrom(ts, g).Some?
    ensures ts == SpelledAll(fields) + [Close] + GameFrom(ts, g).value.rest
    decreases |ts|
  {
    if ts[0].Close? {
      fields := [];
      Split(ts);
    } else {
      var r := GameField(ts[0].text, ts[1..], g).value;
      var v := GameFieldSpelled(ts[0].text, ts[1..], g);
      var more := GameIsSpelled(r.rest, r.g);
      fields := [Field(ts[0].text, v)] + more;
      FieldBefore(ts, v, more, Close, GameFrom(ts, g).value.rest);
    }
  }

  /** Tokens spell a legal game, with `rest` behind it. */
  ghost predicate SpellsGame(ts: seq<Token>, resource: bool, fields: seq<Field>, g: Game, rest: seq<Token>) {
    ts == SpelledAll(fields) + [Close] + rest && LegalGame(fields) && Means(fields, resource, g)
  }

  /** A game is read exactly if the tokens spell one, and it is the one that they spell. */
  lemma GameExactly(ts: seq<Token>, resource: bool)
    ensures forall g, rest :: GameFrom(ts, NewGame(resource)) == Some(GameRead(g, rest)) <==>
                              exists fields :: SpellsGame(ts, resource, fields, g, rest)
  {
    var r := GameFrom(ts, NewGame(resource));
    if r.Some? {
      var fields := GameIsSpelled(ts, NewGame(resource));
      GameMeans(fields, r.value.rest, resource);
      assert SpellsGame(ts, resource, fields, r.value.g, r.value.rest);
    }
    forall g, rest, fields | SpellsGame(ts, resource, fields, g, rest)
      ensures r == Some(GameRead(g, rest))
    {
      GameMeans(fields, rest, resource);
      MeansOne(fields, resource, g, r.value.g);
    }
  }

  // ----- whole listings

  ghost predicate IsGame(f: Field) { f.name in {"game", "resource", "machine"} }

  ghost predicate LegalListing(top: seq<Field>) {
    forall i | 0 <= i < |top| && IsGame(top[i]) :: top[i].value.Group? && LegalGame(top[i].value.fields)
  }

  ghost predicate GameNamed(f: Field, name: string) {
    IsGame(f) && f.value.Group? && Last(f.value.fields, "name", "") == name
  }

  ghost predicate FirstGame(top: seq<Field>, name: string, i: int) {
    0 <= i < |top| && GameNamed(top[i], name) && forall j | 0 <= j < i :: !GameNamed(top[j], name)
  }

  ghost predicate GameIs(f: Field, g: Game) {
    f.value.Group? && Means(f.value.fields, f.name == "resource", g)
  }

  /** Of the games with the same name the first counts. */
  ghost predicate ListingIs(top: seq<Field>, games: map<string, Game>) {
    && (forall name :: name in games <==> exists i :: FirstGame(top, name, i))
    && (forall name, i | FirstGame(top, name, i) && name in games :: GameIs(top[i], games[name]))
  }

  lemma {:induction false} HasFirstGame(top: seq<Field>, name: string, i: int) returns (k: int)
    requires 0 <= i < |top| && GameNamed(top[i], name)
    ensures FirstGame(top, name, k)
    decreases i
  {
    if j :| 0 <= j < i && GameNamed(top[j], name) {
      k := HasFirstGame(top, name, j);
    } else {
      k := i;
    }
  }

  lemma FirstGameNext(top: seq<Field>, f: Field, name: string, i: int)
    ensures FirstGame(top + [f], name, i) <==>
            FirstGame(top, name, i) || (i == |top| && GameNamed(f, name) && !exists j :: FirstGame(top, name, j))
  {
    var more := top + [f];
    forall j | 0 <= j < |top|
      ensures more[j] == top[j]
    {
    }
    if i == |top| && GameNamed(f, name) && exists j | 0 <= j < |top| :: GameNamed(top[j], name) {
      var j :| 0 <= j < |top| && GameNamed(top[j], name);
      var k := HasFirstGame(top, name, j);
    }
  }

  lemma GamesNext(top: seq<Field>, f: Field, games: map<string, Game>, g: Game)
    requires ListingIs(top, games) && IsGame(f) && GameIs(f, g)
    ensures ListingIs(top + [f], Insert(games, g.name, g))
  {
    var more, games' := top + [f], Insert(games, g.name, g);
    assert more[|top|] == f;
    forall n, i
      ensures FirstGame(more, n, i) <==>
              FirstGame(top, n, i) || (i == |top| && GameNamed(f, n) && n !in games)
      ensures 0 <= i < |top| ==> more[i] == top[i]
    {
      FirstGameNext(top, f, n, i);
    }
    forall n
      ensures n in games' <==> exists i :: FirstGame(more, n, i)
    {
      if n in games {
        var i :| FirstGame(top, n, i);
        assert FirstGame(more, n, i);
      } else if n == g.name {
        assert FirstGame(more, n, |top|);
      }
    }
  }

  lemma GamesSame(top: seq<Field>, f: Field, games: map<string, Game>)
    requires ListingIs(top, games) && !IsGame(f)
    ensures ListingIs(top + [f], games)
  {
    var more := top + [f];
    forall n, i
      ensures FirstGame(more, n, i) <==> FirstGame(top, n, i)
      ensures 0 <= i < |top| ==> more[i] == top[i]
    {
      FirstGameNext(top, f, n, i);
    }
  }

  lemma ListingFieldReads(done: seq<Field>, f: Field, more: seq<Token>, games: map<string, Game>)
    requires ListingIs(done, games) && IsGame(f) && f.value.Group?
    ensures var r := GameFrom(SpelledAll(f.value.fields) + [Close] + more, NewGame(f.name == "resource"));
            && (r.Some? <==> LegalGame(f.value.fields))
            && (r.Some? ==> r.value.rest == more &&
                            ListingIs(done + [f], Insert(games, r.value.g.name, r.value.g)))
  {
    GameMeans(f.value.fields, more, f.name == "resource");
    if LegalGame(f.value.fields) {
      var r := GameFrom(SpelledAll(f.value.fields) + [Close] + more, NewGame(f.name == "resource"));
      GamesNext(done, f, games, r.value.g);
    }
  }

  lemma LegalFirst(top: seq<Field>)
    requires top != []
    ensures LegalListing(top) <==>
            (IsGame(top[0]) ==> top[0].value.Group? && LegalGame(top[0].value.fields)) && LegalListing(top[1..])
  {
  }

  /** The tokens of a listing. */
  function ListingTokens(top: seq<Field>): seq<Token> { SpelledAll(top) + [Eof] + [] }

  lemma ListingStep(done: seq<Field>, todo: seq<Field>, games: map<string, Game>)
      returns (legal: bool, games': map<string, Game>)
    requires ListingIs(done, games) == true && todo != []
    ensures LegalListing(todo) == (legal && LegalListing(todo[1..]))
    ensures AllFrom(ListingTokens(todo), games) ==
            if legal then AllFrom(ListingTokens(todo[1..]), games') else None
    ensures legal ==> ListingIs(done + [todo[0]], games') == true
  {
    var f, ts, more := todo[0], ListingTokens(todo), ListingTokens(todo[1..]);
    FieldFirst(todo, Eof, []);
    LegalFirst(todo);
    legal, games' := true, games;
    if !IsGame(f) {
      SkipSpelled(f.value, more);
      GamesSame(done, f, games);
    } else {
      OpenFirst(f.value, more);
      assert ts[1..][1..] == ts[2..];
      if f.value.Group? {
        ListingFieldReads(done, f, more, games);
        var r := GameFrom(ts[2..], NewGame(f.name == "resource"));
        legal := r.Some?;
        if legal {
          games' := Insert(games, r.value.g.name, r.value.g);
        }
      } else {
        legal := false;
      }
    }
  }

  lemma {:induction false} ListingReads(done: seq<Field>, todo: seq<Field>, games: map<string, Game>)
    requires ListingIs(done, games) == true
    ensures var r := AllFrom(ListingTokens(todo), games);
            && (r.Some? == LegalListing(todo))
            && (r.Some? ==> ListingIs(done + todo, r.value) == true)
    decreases |todo|
  {
    if todo == [] {
      assert done + todo == done;
    } else {
      var legal, games' := ListingStep(done, todo, games);
      if legal {
        assert (done + [todo[0]]) + todo[1..] == done + todo;
        ListingReads(done + [todo[0]], todo[1..], games');
      }
    }
  }

  ghost predicate EofOnlyLast(ts: seq<Token>) { forall i | 0 <= i < |ts| - 1 :: !ts[i].Eof? }

  lemma EofBehind(ts: seq<Token>, v: seq<Token>, rest: seq<Token>)
    requires ts != [] && EofOnlyLast(ts) && ts[1..] == v + rest
    ensures EofOnlyLast(rest)
  {
    forall i | 0 <= i < |rest| - 1
      ensures !rest[i].Eof?
    {
      assert rest[i] == ts[1..][|v| + i] == ts[1 + |v| + i];
    }
  }

  lemma ListingGameSpelled(ts: seq<Token>, g: Game) returns (v: Value)
    requires ts != [] && ts[0].Open? && GameFrom(ts[1..], g).Some?
    ensures ts == Spelled(v) + GameFrom(ts[1..], g).value.rest
  {
    var fields := GameIsSpelled(ts[1..], g);
    v := Group(fields);
    Split(ts);
  }

  lemma {:induction false} ListingIsSpelled(ts: seq<Token>, games: map<string, Game>) returns (top: seq<Field>)
    requires AllFrom(ts, games).Some? && EofOnlyLast(ts)
    ensures ts == ListingTokens(top)
    decreases |ts|
  {
    if ts[0].Eof? {
      top := [];
      assert ts == [ts[0]];
    } else {
      var v, more;
      if IsGameKey(ts[0].text) {
        assert ts[1..][1..] == ts[2..];
        var r := GameFrom(ts[2..], NewGame(ts[0].text == "resource")).value;
        v := ListingGameSpelled(ts[1..], NewGame(ts[0].text == "resource"));
        EofBehind(ts, Spelled(v), r.rest);
        more := ListingIsSpelled(r.rest, Insert(games, r.g.name, r.g));
      } else {
        var rest := Skip(ts[1..]).value;
        v := SkippedIsSpelled(ts[1..]);
        EofBehind(ts, Spelled(v), rest);
        more := ListingIsSpelled(rest, games);
      }
      top := [Field(ts[0].text, v)] + more;
      FieldBefore(ts, v, more, Eof, []);
    }
  }

  ghost predicate SpellsListing(s: string, top: seq<Field>, games: map<string, Game>) {
    Tokens(s) == ListingTokens(top) && LegalListing(top) && ListingIs(top, games)
  }

  lemma ListingOne(top: seq<Field>, games: map<string, Game>, games': map<string, Game>)
    requires ListingIs(top, games) && ListingIs(top, games')
    ensures games == games'
  {
    forall name | name in games
      ensures name in games' && games[name] == games'[name]
    {
      var i :| FirstGame(top, name, i);
      MeansOne(top[i].value.fields, top[i].name == "resource", games[name], games'[name]);
    }
    forall name | name in games'
      ensures name in games
    {
      var i :| FirstGame(top, name, i);
    }
  }

  /** A text loads exactly if its tokens spell a legal listing, and as the games of that
      listing. */
  lemma LoadsExactly(s: string)
    ensures forall games :: AllFrom(Tokens(s), map[]) == Some(games) <==> exists top :: SpellsListing(s, top, games)
  {
    var r := AllFrom(Tokens(s), map[]);
    assert ListingIs([], map[]);
    if r.Some? {
      var top := ListingIsSpelled(Tokens(s), map[]);
      ListingReads([], top, map[]);
      assert [] + top == top;
      assert SpellsListing(s, top, r.value);
    }
    forall games, top | SpellsListing(s, top, games)
      ensures r == Some(games)
    {
      ListingReads([], top, map[]);
      assert [] + top == top;
      ListingOne(top, games, r.value);
    }
  }

  // ----- texts in quotes and numbers

  /** A character of a text in quotes: as it is, a letter behind a backslash, or two
      hexadecimal digits behind `\\x`. */
  datatype Letter = Plain(c: char) | Escaped(i: nat) | Code(high: nat, low: nat, capitals: (bool, bool))

  const ESCAPES := "abfnrtv\\?'\""

  /** Bell, backspace, form feed, line feed, carriage return, tab, vertical tab, and four
      characters that stand for themselves. */
  const ESCAPED := [7, 8, 12, 10, 13, 9, 11, 92, 63, 39, 34]

  predicate IsLetter(l: Letter) {
    match l
    case Plain(c) => c != '"' && c != '\\'
    case Escaped(i) => i < 11
    case Code(high, low, _) => high < 16 && low < 16
  }

  function DigitText(d: nat, capitals: bool): char
    requires d < 16
  {
    if capitals then "0123456789ABCDEF"[d] else "0123456789abcdef"[d]
  }

  function LetterText(l: Letter): string
    requires IsLetter(l)
  {
    match l
    case Plain(c) => [c]
    case Escaped(i) => ['\\', ESCAPES[i]]
    case Code(high, low, capitals) => ['\\', 'x', DigitText(high, capitals.0), DigitText(low, capitals.1)]
  }

  function LetterMeaning(l: Letter): char
    requires IsLetter(l)
  {
    match l
    case Plain(c) => c
    case Escaped(i) => ESCAPED[i] as char
    case Code(high, low, _) => (16 * high + low) as char
  }

  predicate AreLetters(ls: seq<Letter>) { forall i | 0 <= i < |ls| :: IsLetter(ls[i]) }

  function LetterTexts(ls: seq<Letter>): string
    requires AreLetters(ls)
  {
    if ls == [] then "" else LetterText(ls[0]) + LetterTexts(ls[1..])
  }

  function LetterMeanings(ls: seq<Letter>): string
    requires AreLetters(ls)
  {
    if ls == [] then "" else [LetterMeaning(ls[0])] + LetterMeanings(ls[1..])
  }

  lemma DigitBack(d: nat, capitals: bool)
    requires d < 16
    ensures IsHexDigit(DigitText(d, capitals)) && HexDigit(DigitText(d, capitals)) == d
  {
  }

  lemma EscapeBack(i: nat)
    requires i < 11
    ensures ESCAPES[i] != 'x' && Escape(ESCAPES[i]) == [ESCAPED[i] as char]
  {
  }

  lemma LetterBack(got: string, l: Letter, more: string)
    requires IsLetter(l)
    ensures StringFrom(got, LetterText(l) + more) == StringFrom(got + [LetterMeaning(l)], more)
  {
    var s := LetterText(l) + more;
    match l
    case Plain(_) => assert s[1..] == more;
    case Escaped(i) =>
      EscapeBack(i);
      assert s[0] == '\\' && s[1] == ESCAPES[i] && s[2..] == more;
    case Code(high, low, capitals) =>
      DigitBack(high, capitals.0);
      DigitBack(low, capitals.1);
      assert s[0] == '\\' && s[1] == 'x' && s[4..] == more;
  }

  /** A text in quotes stands for the characters that its letters and escapes mean. */
  lemma {:induction false} QuotedBack(got: string, ls: seq<Letter>, rest: string)
    requires AreLetters(ls)
    ensures StringFrom(got, LetterTexts(ls) + "\"" + rest) == Read(Quoted(got + LetterMeanings(ls)), rest)
    decreases |ls|
  {
    if ls == [] {
      assert "" + "\"" + rest == ['"'] + rest;
      assert got + "" == got;
    } else {
      var more := LetterTexts(ls[1..]) + "\"" + rest;
      assert LetterTexts(ls) + "\"" + rest == LetterText(ls[0]) + more;
      LetterBack(got, ls[0], more);
      QuotedBack(got + [LetterMeaning(ls[0])], ls[1..], rest);
      assert (got + [LetterMeaning(ls[0])]) + LetterMeanings(ls[1..]) == got + LetterMeanings(ls);
    }
  }

  lemma EscapeIs(c: char) returns (i: nat)
    requires Escape(c) != ""
    ensures i < 11 && ESCAPES[i] == c
  {
    i := match c
      case 'a' => 0
      case 'b' => 1
      case 'f' => 2
      case 'n' => 3
      case 'r' => 4
      case 't' => 5
      case 'v' => 6
      case '\\' => 7
      case '?' => 8
      case '\'' => 9
      case _ => 10;
  }

  lemma DigitIs(c: char) returns (d: nat, capitals: bool)
    requires IsHexDigit(c)
    ensures d < 16 && DigitText(d, capitals) == c
  {
    d, capitals := HexDigit(c), 'A' <= c <= 'F';
  }

  /** The first letter of a text that is read to its quote. */
  lemma LetterIs(got: string, s: string) returns (l: Letter, k: nat)
    requires StringFrom(got, s).token.Quoted? && s[0] != '"'
    ensures IsLetter(l) && 0 < k <= |s| && s == LetterText(l) + s[k..]
  {
    if s[0] != '\\' {
      l, k := Plain(s[0]), 1;
    } else if s[1] == 'x' {
      var high, capital := DigitIs(s[2]);
      var low, also := DigitIs(s[3]);
      l, k := Code(high, low, (capital, also)), 4;
    } else {
      var i := EscapeIs(s[1]);
      l, k := Escaped(i), 2;
    }
  }

  ghost predicate QuotedBy(s: string, ls: seq<Letter>, rest: string) {
    AreLetters(ls) && s == LetterTexts(ls) + "\"" + rest
  }

  lemma LetterBefore(l: Letter, s: string, ls: seq<Letter>, rest: string)
    requires IsLetter(l) && QuotedBy(s, ls, rest)
    ensures QuotedBy(LetterText(l) + s, [l] + ls, rest)
  {
    assert ([l] + ls)[1..] == ls;
    assert LetterText(l) + (LetterTexts(ls) + "\"" + rest) == LetterText(l) + LetterTexts(ls) + "\"" + rest;
  }

  /** What is read as a text in quotes is made of such letters. */
  lemma {:induction false} QuotedIs(got: string, s: string) returns (ls: seq<Letter>)
    requires StringFrom(got, s).token.Quoted?
    ensures QuotedBy(s, ls, StringFrom(got, s).rest) == true
    decreases |s|
  {
    if s[0] == '"' {
      ls := [];
      assert s == [s[0]] + s[1..];
    } else {
      var l, k := LetterIs(got, s);
      LetterBack(got, l, s[k..]);
      var more := QuotedIs(got + [LetterMeaning(l)], s[k..]);
      LetterBefore(l, s[k..], more, StringFrom(got + [LetterMeaning(l)], s[k..]).rest);
      ls := [l] + more;
    }
  }

  /** A prefix `0x` is skipped, and the two cases of a digit are the same. */
  lemma HexForms(digits: string)
    requires forall c | c in digits :: IsHexDigit(c)
    ensures HexOf("0x" + digits) == HexOf(digits) && HexOf(digits).Some?
    ensures forall d: nat | d < 16 :: HexDigit("0123456789abcdef"[d]) == d && HexDigit("0123456789ABCDEF"[d]) == d
  {
    assert ("0x" + digits)[2..] == digits;
    if |digits| > 1 {
      assert digits[1] in digits;
    }
    forall d: nat | d < 16
      ensures DigitText(d, false) == "0123456789abcdef"[d] && DigitText(d, true) == "0123456789ABCDEF"[d]
      ensures HexDigit("0123456789abcdef"[d]) == d && HexDigit("0123456789ABCDEF"[d]) == d
    {
      DigitBack(d, false);
      DigitBack(d, true);
    }
  }
}
