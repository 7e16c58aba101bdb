/** The scan of a game's zip against its roms (scan.cc:120-196, 400-649). */
module RomFind {
  import opened Wrappers
  import opened RomZip
  import opened RomArchive

  datatype Rom = Rom(key: Key, nodump: bool)

  /** `analyze_type` */
  datatype Kind = Text | Binary | Garbage

  type Analyze = (string, Key) -> Kind

  /** `rom_stat_t`, without the sets of nodump roms, which are only reported. */
  datatype Stat = Stat(miss: map<string, Rom>, equal: set<string>, bad: map<string, Rom>,
                       binary: map<string, Key>, text: map<string, Key>, garbage: map<string, Key>)

  predicate Matches(c: Option<Content>, key: Key) { c.Some? && KeyOf(c.value) == key }

  /** Where the member of a name is, and what it holds. */
  type Positions = string -> nat
  type Lookup = string -> Option<Content>

  function PositionsOf(ms: seq<Member>): Positions { (n: string) => FirstAt(ms, n) }

  function ContentsOf(ms: seq<Member>): Lookup { (n: string) => Get(ms, n) }

  /** The members before `n` that are no rom of the game, of one kind. */
  ghost predicate Unknowns(found: map<string, Key>, at: Positions, get: Lookup, n: nat, game: map<string, Rom>, ana: Analyze, kind: Kind) {
    && (forall u :: u in found <==> at(u) < n && get(u).Some? && u !in game && ana(u, KeyOf(get(u).value)) == kind)
    && (forall u | u in found :: found[u] == KeyOf(get(u).value))
  }

  /** The roms that the members before `n` have the names of, good and wrong. */
  ghost predicate Known(equal: set<string>, bad: map<string, Rom>, at: Positions, get: Lookup, n: nat, game: map<string, Rom>) {
    && (forall r :: r in equal <==> r in game && !game[r].nodump && at(r) < n && Matches(get(r), game[r].key))
    && (forall r :: r in bad <==> r in game && !game[r].nodump && at(r) < n && get(r).Some? && !Matches(get(r), game[r].key))
    && (forall r | r in bad :: bad[r] == game[r])
  }

  /** What the first `n` members say of the roms of the game. */
  ghost predicate Sorted(st: Stat, at: Positions, get: Lookup, n: nat, game: map<string, Rom>, ana: Analyze) {
    && Known(st.equal, st.bad, at, get, n, game)
    && Unknowns(st.binary, at, get, n, game, ana, Binary)
    && Unknowns(st.text, at, get, n, game, ana, Text)
    && Unknowns(st.garbage, at, get, n, game, ana, Garbage)
  }

  /** And all of them. */
  ghost predicate Status(st: Stat, ms: seq<Member>, game: map<string, Rom>, ana: Analyze) {
    && Sorted(st, PositionsOf(ms), ContentsOf(ms), |ms|, game, ana)
    && (forall r :: r in st.miss <==> r in game && !game[r].nodump && !HasName(ms, r))
    && (forall r | r in st.miss :: st.miss[r] == game[r])
  }

  /** One more unknown member of a kind, or of none. */
  lemma UnknownsNext(found: map<string, Key>, at: Positions, get: Lookup, n: nat, game: map<string, Rom>, ana: Analyze,
                     kind: Kind, m: Member)
    requires Unknowns(found, at, get, n, game, ana, kind)
    requires IsMember(at, get, n, m)
    ensures var more := m.name !in game && ana(m.name, KeyOf(m.content)) == kind;
            Unknowns(if more then found[m.name := KeyOf(m.content)] else found, at, get, n + 1, game, ana, kind)
  {
  }

  /** The member at `n`, and no other, has this name. */
  ghost predicate IsMember(at: Positions, get: Lookup, n: nat, m: Member) {
    at(m.name) == n && get(m.name) == Some(m.content) && forall r :: r != m.name ==> at(r) != n
  }

  /** A member that is no rom of the game. */
  method StatUnknown(m: Member, st: Stat, ana: Analyze, ghost at: Positions, ghost get: Lookup, ghost n: nat,
                     ghost game: map<string, Rom>)
    returns (now: Stat)
    requires IsMember(at, get, n, m) && Sorted(st, at, get, n, game, ana) && m.name !in game
    ensures Sorted(now, at, get, n + 1, game, ana) && now.miss == st.miss
  {
    UnknownsNext(st.binary, at, get, n, game, ana, Binary, m);
    UnknownsNext(st.text, at, get, n, game, ana, Text, m);
    UnknownsNext(st.garbage, at, get, n, game, ana, Garbage, m);
    var key := KeyOf(m.content);
    match ana(m.name, key)
    case Text => now := st.(text := st.text[m.name := key]);
    case Binary => now := st.(binary := st.binary[m.name := key]);
    case Garbage => now := st.(garbage := st.garbage[m.name := key]);
  }

  /** A member with the name of a rom. */
  method StatKnown(m: Member, st: Stat, rom: Rom, ghost ana: Analyze, ghost at: Positions, ghost get: Lookup, ghost n: nat,
                   ghost game: map<string, Rom>)
    returns (now: Stat)
    requires IsMember(at, get, n, m) && Sorted(st, at, get, n, game, ana) && m.name in game && game[m.name] == rom
    ensures Sorted(now, at, get, n + 1, game, ana) && now.miss == st.miss
  {
    UnknownsNext(st.binary, at, get, n, game, ana, Binary, m);
    UnknownsNext(st.text, at, get, n, game, ana, Text, m);
    UnknownsNext(st.garbage, at, get, n, game, ana, Garbage, m);
    now := st;
    if !rom.nodump {
      if KeyOf(m.content) == rom.key {
        now := st.(equal := st.equal + {m.name});
      } else {
        now := st.(bad := st.bad[m.name := rom]);
      }
    }
  }

  lemma OneNameAt(ms: seq<Member>, z: nat)
    requires DistinctNames(ms) && z < |ms|
    ensures IsMember(PositionsOf(ms), ContentsOf(ms), z, ms[z])
  {
    GetAt(ms, z);
  }

  /** The loop of `stat_rom_zip` over the members; `b` holds the roms that no member has the
      name of. */
  method StatMembers(ms: seq<Member>, game: map<string, Rom>, ana: Analyze) returns (st: Stat, b: map<string, Rom>)
    requires DistinctNames(ms)
    ensures Sorted(st, PositionsOf(ms), ContentsOf(ms), |ms|, game, ana)
    ensures (forall r :: r in b <==> r in game && !HasName(ms, r)) && forall r | r in b :: b[r] == game[r]
  {
    st, b := Stat(map[], {}, map[], map[], map[], map[]), game;
    var z := 0;
    ghost var at, get := PositionsOf(ms), ContentsOf(ms);
    while z < |ms|
      invariant 0 <= z <= |ms| && Sorted(st, at, get, z, game, ana)
      invariant (forall r :: r in b <==> r in game && at(r) >= z) && forall r | r in b :: b[r] == game[r]
    {
      OneNameAt(ms, z);
      var m := ms[z];
      if m.name !in b {
        st := StatUnknown(m, st, ana, at, get, z, game);
      } else {
        st := StatKnown(m, st, b[m.name], ana, at, get, z, game);
        b := b - {m.name};
      }
      z := z + 1;
    }
  }

  /** `stat_rom_zip` */
  method StatRomZip(ms: seq<Member>, game: map<string, Rom>, ana: Analyze) returns (st: Stat)
    requires DistinctNames(ms)
    ensures Status(st, ms, game, ana)
  {
    var b;
    st, b := StatMembers(ms, game, ana);
    st := st.(miss := map r | r in b && !b[r].nodump :: b[r]);
  }

  // ----- one rom that is missing or wrong

  /** What is known when a rom is looked for: names are distinct, the member of that name, if
      any, is wrong, and the unknown members are what they are said to be. */
  ghost predicate Ready(ms: seq<Member>, name: string, key: Key, unknown: map<string, Key>) {
    && DistinctNames(ms)
    && !Matches(Get(ms, name), key)
    && (forall u | u in unknown :: u != name && Matches(Get(ms, u), unknown[u]))
  }

  /** What stays when a rom is put in place: every other name in both zips, but for one
      unknown member if that was renamed, which is gone. */
  ghost predicate Kept(ms: seq<Member>, rs: seq<Member>, ns: seq<Member>, ts: seq<Member>, name: string, gone: set<string>) {
    && DistinctNames(ns)
    && (forall n :: n != name && n !in gone ==> Get(ns, n) == Get(ms, n))
    && (forall n | n in gone :: Get(ns, n).None?)
    && KeepsOthers(rs, ts, name)
  }

  /** The first rejected member with the wanted content has the wanted name. */
  predicate ComesBack(rs: seq<Member>, name: string, key: Key) {
    HasKey(rs, key) && rs[FirstKey(rs, key)].name == name
  }

  /** The result of one way to find a rom: `c` is what was copied, if anything was, and
      `moved` says that a wrong member of that name was moved to the reject zip, which
      overwrites the rejected member of that name and nothing else. Moved or swapped, the
      wrong member is in the reject zip then. */
  ghost predicate Outcome(ms: seq<Member>, rs: seq<Member>, ns: seq<Member>, ts: seq<Member>, name: string, key: Key,
                          added: bool, gone: set<string>, c: multiset<Content>, moved: bool)
  {
    forall k {:trigger OutcomeAsked(k)} :: OutcomeAsked(k) ==>
      if !added then ns == ms && ts == rs && gone == {} && c == multiset{} && !moved
      else
        && Kept(ms, rs, ns, ts, name, gone)
        && Matches(Get(ns, name), key)
        && Bag(ns) + Bag(ts) + (if moved then BagAt(rs, name) else multiset{}) == Bag(ms) + Bag(rs) + c
        && (moved <==> HasName(ms, name) && (HasKey(ms, key) || !ComesBack(rs, name, key)))
        && (HasName(ms, name) ==> Member(name, Get(ms, name).value) in ts)
  }

  predicate OutcomeAsked(k: int) { true }

  lemma NothingDone(ms: seq<Member>, rs: seq<Member>, name: string, key: Key)
    ensures Outcome(ms, rs, ms, rs, name, key, false, {}, multiset{}, false) == true
  {
  }

  /** A rom that is put over the member of its name. */
  lemma OutcomeIs(ms: seq<Member>, rs: seq<Member>, ns: seq<Member>, ts: seq<Member>, name: string, key: Key,
                  gone: set<string>, c: multiset<Content>)
    requires Kept(ms, rs, ns, ts, name, gone) && Matches(Get(ns, name), key)
    requires Bag(ns) + Bag(ts) + Overwritten(ms, rs, name) == Bag(ms) + Bag(rs) + c
    requires HasKey(ms, key) || !ComesBack(rs, name, key)
    requires HasName(ms, name) ==> Member(name, Get(ms, name).value) in ts
    ensures Outcome(ms, rs, ns, ts, name, key, true, gone, c, HasName(ms, name)) == true
  {
  }

  lemma RenamedKept(ms: seq<Member>, rs: seq<Member>, name: string, key: Key, unknown: map<string, Key>, u: string)
    requires Ready(ms, name, key, unknown) && u in unknown && unknown[u] == key
    ensures HasName(RemoveName(ms, name), u)
    ensures Outcome(ms, rs, Renamed(ms, u, name), Rejected(ms, rs, name), name, key, true, {u}, multiset{}, HasName(ms, name)) == true
  {
    assert HasKey(ms, key) by { HasKeyAt(ms, key, FirstAt(ms, u)); }
    RenameEffect(ms, rs, u, name);
    RejectedKeeps(ms, rs, name);
    var ns, ts := Renamed(ms, u, name), Rejected(ms, rs, name);
    assert Bag(ns) + Bag(ts) + Overwritten(ms, rs, name) == Bag(ms) + Bag(rs) + multiset{} by { RenameExactly(ms, rs, u, name); }
    OutcomeIs(ms, rs, ns, ts, name, key, {u}, multiset{});
  }

  lemma AddedKept(ms: seq<Member>, rs: seq<Member>, name: string, key: Key, unknown: map<string, Key>, c: Content)
    requires Ready(ms, name, key, unknown) && KeyOf(c) == key && (HasKey(ms, key) || !ComesBack(rs, name, key))
    ensures Outcome(ms, rs, Added(ms, name, c), Rejected(ms, rs, name), name, key, true, {}, multiset{c}, HasName(ms, name)) == true
  {
    AddEffect(ms, rs, name, c);
    RejectedKeeps(ms, rs, name);
    var ns, ts := Added(ms, name, c), Rejected(ms, rs, name);
    assert Bag(ns) + Bag(ts) + Overwritten(ms, rs, name) == Bag(ms) + Bag(rs) + multiset{c} by { AddExactly(ms, rs, name, c); }
    OutcomeIs(ms, rs, ns, ts, name, key, {}, multiset{c});
  }

  lemma BackKept(ms: seq<Member>, rs: seq<Member>, name: string, key: Key, unknown: map<string, Key>, k: nat)
    requires Ready(ms, name, key, unknown) && k < |rs| && rs[k].name == name && k == FirstKey(rs, key) && !HasKey(ms, key)
    ensures Outcome(ms, rs, RemoveName(ms, name) + [rs[k]], SwappedOut(ms, rs, name, k), name, key, true, {}, multiset{}, false) == true
  {
    var ns, ts := RemoveName(ms, name) + [rs[k]], SwappedOut(ms, rs, name, k);
    assert Bag(ns) + Bag(ts) == Bag(ms) + Bag(rs) && Matches(Get(ns, name), key) by {
      SwapEffect(ms, rs, k);
    }
    assert Kept(ms, rs, ns, ts, name, {}) by {
      SwapEffect(ms, rs, k);
      SwapKeeps(ms, rs, k);
    }
    assert HasName(ms, name) ==> Member(name, Get(ms, name).value) in ts by {
      SwapKeeps(ms, rs, k);
    }
    BackIs(ms, rs, ns, ts, name, key, k);
  }

  lemma BackIs(ms: seq<Member>, rs: seq<Member>, ns: seq<Member>, ts: seq<Member>, name: string, key: Key, k: nat)
    requires Kept(ms, rs, ns, ts, name, {}) == true && Matches(Get(ns, name), key) && Bag(ns) + Bag(ts) == Bag(ms) + Bag(rs)
    requires k < |rs| && rs[k].name == name && k == FirstKey(rs, key) && !HasKey(ms, key)
    requires HasName(ms, name) ==> Member(name, Get(ms, name).value) in ts
    ensures Outcome(ms, rs, ns, ts, name, key, true, {}, multiset{}, false) == true
  {
  }

  /** Renaming an unknown member to the rom (scan.cc:419-442). */
  method FromUnknown(fix: bool, z: ZipRom, reject: ZipRom, name: string, key: Key, unknown: map<string, Key>)
    returns (found: bool, added: bool, rest: map<string, Key>, ghost gone: set<string>, ghost moved: bool)
    requires z != reject && z.Synced() && reject.Synced() && Ready(z.members, name, key, unknown)
    modifies z`members, z`modified, reject`members, reject`modified
    ensures z.Synced() && reject.Synced()
    ensures found == exists u :: u in unknown && unknown[u] == key
    ensures added == (found && fix && !z.readonly) && rest == unknown - gone && gone <= unknown.Keys
    ensures forall u | u in gone :: unknown[u] == key
    ensures Outcome(old(z.members), old(reject.members), z.members, reject.members, name, key, added, gone, multiset{}, moved) == true
    ensures !added ==> z.members == old(z.members) && reject.members == old(reject.members) && rest == unknown
  {
    found, added, rest, gone, moved := false, false, unknown, {}, false;
    NothingDone(z.members, reject.members, name, key);
    if u :| u in unknown && unknown[u] == key {
      if fix && !z.readonly {
        RenamedKept(z.members, reject.members, name, key, unknown, u);
        moved := HasName(z.members, name);
        added := z.Rename(u, name, reject);
        gone := {u};
        rest := unknown - {u};
      }
      found := true;
    }
  }

  /** Copying a member of the zip itself (scan.cc:444-471); one of that name already there
      is an internal error. */
  method FromSelf(fix: bool, z: ZipRom, reject: ZipRom, name: string, key: Key, ghost unknown: map<string, Key>)
    returns (found: bool, added: bool, error: bool, ghost c: multiset<Content>, ghost moved: bool)
    requires z != reject && z.Synced() && reject.Synced() && Ready(z.members, name, key, unknown)
    modifies z`members, z`modified, reject`members, reject`modified
    ensures z.Synced() && reject.Synced() && !error
    ensures found == HasKey(old(z.members), key) && added == (found && fix && !z.readonly)
    ensures Outcome(old(z.members), old(reject.members), z.members, reject.members, name, key, added, {}, c, moved) == true
    ensures c <= old(Bag(z.members))
    ensures !added ==> z.members == old(z.members) && reject.members == old(reject.members) && c == multiset{}
  {
    found, added, error, c, moved := false, false, false, multiset{}, false;
    NothingDone(z.members, reject.members, name, key);
    var ms, j := z.members, 0;
    while j < |ms|
      invariant 0 <= j <= |ms| && forall k | 0 <= k < j :: KeyOf(ms[k].content) != key
      invariant z.members == ms == old(z.members) && reject.members == old(reject.members) && z.modified == old(z.modified) && reject.modified == old(reject.modified)
      invariant !found && !added && !error && c == multiset{} && !moved
    {
      if KeyOf(ms[j].content) == key {
        HasKeyAt(ms, key, j);
        GetAt(ms, j);
        InBag(ms, j);
        if ms[j].name != name {
          if fix && !z.readonly {
            AddedKept(ms, reject.members, name, key, unknown, ms[j].content);
            c, moved := multiset{ms[j].content}, HasName(ms, name);
            z.AddOver(ms[j].content, name, reject);
            added := true;
          }
        } else {
          error := true;
        }
        found := true;
        break;
      }
      j := j + 1;
    }
  }

  /** Copying or moving back a rejected member (scan.cc:473-504). */
  method FromReject(fix: bool, z: ZipRom, reject: ZipRom, name: string, key: Key, ghost unknown: map<string, Key>)
    returns (found: bool, added: bool, ghost c: multiset<Content>, ghost moved: bool)
    requires z != reject && z.Synced() && reject.Synced() && Ready(z.members, name, key, unknown) && !HasKey(z.members, key)
    modifies z`members, z`modified, reject`members, reject`modified
    ensures z.Synced() && reject.Synced()
    ensures found == HasKey(old(reject.members), key) && added == (found && fix && !z.readonly)
    ensures Outcome(old(z.members), old(reject.members), z.members, reject.members, name, key, added, {}, c, moved) == true
    ensures c <= old(Bag(reject.members))
    ensures !added ==> z.members == old(z.members) && reject.members == old(reject.members) && c == multiset{}
  {
    found, added, c, moved := false, false, multiset{}, false;
    NothingDone(z.members, reject.members, name, key);
    var rs, j := reject.members, 0;
    while j < |rs|
      invariant 0 <= j <= |rs| && forall k | 0 <= k < j :: KeyOf(rs[k].content) != key
      invariant z.members == old(z.members) && reject.members == rs == old(reject.members) && z.modified == old(z.modified) && reject.modified == old(reject.modified)
      invariant !found && !added && c == multiset{} && !moved
    {
      if KeyOf(rs[j].content) == key {
        HasKeyAt(rs, key, j);
        FirstKeyIs(rs, key, j);
        InBag(rs, j);
        if fix && !z.readonly {
          if rs[j].name != name {
            AddedKept(z.members, rs, name, key, unknown, rs[j].content);
            c, moved := multiset{rs[j].content}, HasName(z.members, name);
            z.AddOver(rs[j].content, name, reject);
          } else {
            BackKept(z.members, rs, name, key, unknown, j);
            z.Swap(name, reject, j);
          }
          added := true;
        }
        found := true;
        break;
      }
      j := j + 1;
    }
  }

  /** No content has that key. */
  ghost predicate NotIn(pool: set<Content>, key: Key) { forall d | d in pool :: KeyOf(d) != key }

  lemma PoolKeys(zar: ZipArchive, z: ZipRom, key: Key)
    requires forall i | 0 <= i < |zar.zips| && zar.zips[i] != z :: !HasKey(zar.zips[i].members, key)
    ensures NotIn(zar.Pool(z), key)
  {
    forall i, k | 0 <= i < |zar.zips| && zar.zips[i] != z && 0 <= k < |zar.zips[i].members|
      ensures KeyOf(zar.zips[i].members[k].content) != key
    {
      assert !HasKey(zar.zips[i].members, key);
    }
  }

  /** Copying a member of another zip (scan.cc:506-521). */
  method FromOther(fix: bool, z: ZipRom, reject: ZipRom, zar: ZipArchive, name: string, key: Key, ghost unknown: map<string, Key>)
    returns (found: bool, added: bool, ghost c: multiset<Content>, ghost moved: bool)
    requires z != reject && z.Synced() && reject.Synced() && Ready(z.members, name, key, unknown) && !HasKey(reject.members, key)
    requires reject !in zar.zips && zar.CoveredBut(z)
    modifies z`members, z`modified, reject`members, reject`modified
    ensures z.Synced() && reject.Synced() && zar.CoveredBut(z)
    ensures found == !NotIn(zar.Pool(z), key) && added == (found && fix && !z.readonly)
    ensures Outcome(old(z.members), old(reject.members), z.members, reject.members, name, key, added, {}, c, moved) == true
    ensures forall d | d in c :: d in zar.Pool(z)
    ensures !added ==> z.members == old(z.members) && reject.members == old(reject.members) && c == multiset{}
  {
    found, added, c, moved := false, false, multiset{}, false;
    NothingDone(z.members, reject.members, name, key);
    var i, k := zar.FindExclude(z, key);
    if i == |zar.zips| {
      PoolKeys(zar, z, key);
    }
    if i < |zar.zips| {
      var d := zar.zips[i].members[k].content;
      assert d in zar.Pool(z);
      if fix && !z.readonly {
        AddedKept(z.members, reject.members, name, key, unknown, d);
        c, moved := multiset{d}, HasName(z.members, name);
        z.AddOver(d, name, reject);
        added := true;
      }
      found := true;
    }
  }

  /** `rom_scan_add`: with the fix switched on and a zip that can be written, the rom is put
      in place if any zip has it. */
  method RomScanAdd(fix: bool, z: ZipRom, reject: ZipRom, zar: ZipArchive, name: string, key: Key, unknown: map<string, Key>)
    returns (added: bool, error: bool, rest: map<string, Key>, ghost gone: set<string>, ghost c: multiset<Content>, ghost moved: bool)
    requires z != reject && z.Synced() && reject.Synced() && Ready(z.members, name, key, unknown) == true
    requires reject !in zar.zips && zar.CoveredBut(z)
    modifies z`members, z`modified, reject`members, reject`modified
    ensures z.Synced() && reject.Synced() && zar.CoveredBut(z) && !error
    ensures added ==> fix && !z.readonly
    ensures rest == unknown - gone && gone <= unknown.Keys && forall u | u in gone :: unknown[u] == key
    ensures !added ==> z.members == old(z.members) && reject.members == old(reject.members) && rest == unknown && c == multiset{}
    ensures Outcome(old(z.members), old(reject.members), z.members, reject.members, name, key, added, gone, c, moved) == true
    ensures forall d | d in c :: d in old(Bag(z.members)) || d in old(Bag(reject.members)) || d in zar.Pool(z)
    ensures fix && !z.readonly && !added ==> !HasKey(z.members, key) && !HasKey(reject.members, key) && NotIn(zar.Pool(z), key)
  {
    var found;
    error, c := false, multiset{};
    found, added, rest, gone, moved := FromUnknown(fix, z, reject, name, key, unknown);
    if !found {
      found, added, error, c, moved := FromSelf(fix, z, reject, name, key, unknown);
    }
    if !found {
      found, added, c, moved := FromReject(fix, z, reject, name, key, unknown);
    }
    if !found {
      found, added, c, moved := FromOther(fix, z, reject, zar, name, key, unknown);
    }
  }
}
