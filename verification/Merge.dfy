/** Differential merging (game.cc:279-288, 460-489): each game loses the roms that one of the
    games it is a `romof` has, in place and one game after the other. */
module Merge {
  import opened Wrappers
  import opened RomArchive
  import opened RomFind

  datatype Game = Game(romof: string, roms: map<string, Rom>)

  type Games = map<string, Game>

  // ----- the walk up the chain of `romof`, and when it ends

  /** The walk of `load` from a game after `k` turns of its loop: whether the loop goes on,
      and where it stands. */
  function Walk(games: Games, name: string, k: nat): (bool, string)
    requires name in games
  {
    if k == 0 then (true, games[name].romof)
    else
      var (on, romof) := Walk(games, name, k - 1);
      if !on || romof == "" || romof !in games || romof == name || games[romof].romof == romof then (false, romof)
      else (true, games[romof].romof)
  }

  ghost predicate Ends(games: Games, name: string)
    requires name in games
  {
    exists k: nat :: !Walk(games, name, k).0
  }

  /** Games whose links stay among them, none of which names itself, without this one. */
  predicate Trap(games: Games, trap: set<string>, name: string) {
    && name !in trap && "" !in trap
    && (forall c | c in trap :: c in games && games[c].romof in trap && games[c].romof != c)
  }

  lemma {:induction false} Trapped(games: Games, trap: set<string>, name: string, k: nat)
    requires name in games && Trap(games, trap, name) && games[name].romof in trap
    ensures Walk(games, name, k).0 && Walk(games, name, k).1 in trap
  {
    if k > 0 {
      Trapped(games, trap, name, k - 1);
    }
  }

  /** Where an endless walk comes along. */
  ghost function Passed(games: Games, name: string): set<string>
    requires name in games
  {
    set m | m in games.Keys && exists k: nat :: Walk(games, name, k) == (true, m)
  }

  lemma PassedTraps(games: Games, name: string)
    requires name in games && forall k: nat :: Walk(games, name, k).0
    ensures Trap(games, Passed(games, name), name) && games[name].romof in Passed(games, name)
  {
    assert Walk(games, name, 0) == (true, games[name].romof) && Walk(games, name, 0 + 1).0;
    forall c | c in Passed(games, name)
      ensures c != name && c != "" && games[c].romof in Passed(games, name) && games[c].romof != c
    {
      var k: nat :| Walk(games, name, k) == (true, c);
      assert Walk(games, name, k + 1).0 && Walk(games, name, k + 1 + 1).0;
      assert Walk(games, name, k + 1) == (true, games[c].romof);
    }
  }

  /** The loop of `load` does not end exactly if the game leads into a cycle of two or more
      games that does not lead through the game itself. */
  lemma EndlessExactly(games: Games, name: string)
    requires name in games
    ensures !Ends(games, name) <==> exists trap :: Trap(games, trap, name) && games[name].romof in trap
  {
    if !Ends(games, name) {
      PassedTraps(games, name);
    } else if trap :| Trap(games, trap, name) && games[name].romof in trap {
      var k: nat :| !Walk(games, name, k).0;
      Trapped(games, trap, name, k);
      assert false;
    }
  }

  /** An archive on which `load` does not end: a clone of one of two games that name each
      other. For the two of them alone it does. */
  lemma EndlessArchive(a: map<string, Rom>, b: map<string, Rom>, c: map<string, Rom>)
    ensures var games := map["a" := Game("b", a), "b" := Game("c", b), "c" := Game("b", c)];
            !Ends(games, "a") && Ends(games, "b") && Ends(games, "c")
  {
    var games := map["a" := Game("b", a), "b" := Game("c", b), "c" := Game("b", c)];
    var names := ["a", "b", "c"];
    assert names[0][0] == 'a' && names[1][0] == 'b' && names[2][0] == 'c';
    assert Trap(games, {names[1], names[2]}, names[0]);
    EndlessExactly(games, names[0]);
    ShortCycle(games, names[1], names[2]);
    ShortCycle(games, names[2], names[1]);
  }

  lemma ShortCycle(games: Games, name: string, other: string)
    requires name in games && other in games && games[name].romof == other && games[other].romof == name && name != other
    ensures Ends(games, name)
  {
    if other == "" {
      assert !Walk(games, name, 1).0;
    } else {
      assert Walk(games, name, 1) == (true, name);
      assert !Walk(games, name, 2).0;
    }
  }

  /** The game that `romof` names, unless it is missing or the game itself. */
  predicate HasParent(games: Games, name: string) {
    name in games && games[name].romof != "" && games[name].romof in games && games[name].romof != name
  }

  /** No cycle of `romof`, but for games that name themselves. */
  ghost predicate Acyclic(games: Games, rank: string -> nat) {
    forall n | HasParent(games, n) :: rank(games[n].romof) < rank(n)
  }

  lemma {:induction false} WalkRank(games: Games, rank: string -> nat, name: string, k: nat)
    requires Acyclic(games, rank) && name in games && Walk(games, name, k).0
    requires var romof := Walk(games, name, k).1; romof != "" && romof in games && romof != name
    ensures rank(Walk(games, name, k).1) + k < rank(name)
  {
    if k == 0 {
      assert HasParent(games, name);
    } else {
      var before := Walk(games, name, k - 1).1;
      WalkRank(games, rank, name, k - 1);
      assert HasParent(games, before);
    }
  }

  /** Without such cycles every walk ends. */
  lemma AcyclicEnds(games: Games, rank: string -> nat, name: string)
    requires Acyclic(games, rank) && name in games
    ensures Ends(games, name)
  {
    var k := rank(name);
    if Walk(games, name, k + 1).0 {
      WalkRank(games, rank, name, k);
    }
  }

  // ----- families

  /** The `k`-th ancestor. */
  function Nth(games: Games, name: string, k: nat): Option<string> {
    if k == 0 then Some(name)
    else
      var x := Nth(games, name, k - 1);
      if x.Some? && HasParent(games, x.value) then Some(games[x.value].romof) else None
  }

  /** A game and all its ancestors. */
  ghost function Family(games: Games, name: string): set<string> {
    set m | m in games.Keys && exists k: nat :: Nth(games, name, k) == Some(m)
  }

  /** The ancestors; on a cycle, the other games on it. */
  ghost function Above(games: Games, name: string): set<string> { Family(games, name) - {name} }

  /** The game is its own ancestor. */
  ghost predicate OnCycle(games: Games, name: string) { HasParent(games, name) && name in Family(games, games[name].romof) }

  lemma InFamily(games: Games, name: string)
    requires name in games
    ensures name in Family(games, name)
  {
    assert Nth(games, name, 0) == Some(name);
  }

  lemma ParentIn(games: Games, name: string, m: string)
    requires m in Family(games, name) && HasParent(games, m)
    ensures games[m].romof in Family(games, name)
  {
    var k: nat :| Nth(games, name, k) == Some(m);
    assert Nth(games, name, k + 1) == Some(games[m].romof);
  }

  /** A set that the links do not leave holds the families of its games. */
  lemma {:induction false} NthClosed(games: Games, within: set<string>, name: string, k: nat)
    requires name in within && forall m | m in within && HasParent(games, m) :: games[m].romof in within
    ensures Nth(games, name, k).Some? ==> Nth(games, name, k).value in within
  {
    if k > 0 {
      NthClosed(games, within, name, k - 1);
    }
  }

  lemma FamilyClosed(games: Games, within: set<string>, name: string)
    requires name in within && forall m | m in within && HasParent(games, m) :: games[m].romof in within
    ensures Family(games, name) <= within
  {
    forall m | m in Family(games, name)
      ensures m in within
    {
      var k: nat :| Nth(games, name, k) == Some(m);
      NthClosed(games, within, name, k);
    }
  }

  lemma FamilyOf(games: Games, name: string, m: string)
    requires m in Family(games, name)
    ensures Family(games, m) <= Family(games, name)
  {
    forall x | x in Family(games, name) && HasParent(games, x)
      ensures games[x].romof in Family(games, name)
    {
      ParentIn(games, name, x);
    }
    FamilyClosed(games, Family(games, name), m);
  }

  /** Who is not on a cycle has the family of the parent above. */
  lemma AboveIs(games: Games, name: string)
    requires name in games && !OnCycle(games, name)
    ensures Above(games, name) == if HasParent(games, name) then Family(games, games[name].romof) else {}
  {
    InFamily(games, name);
    if HasParent(games, name) {
      var p := games[name].romof;
      InFamily(games, p);
      ParentIn(games, name, name);
      FamilyOf(games, name, p);
      forall x | x in {name} + Family(games, p) && HasParent(games, x)
        ensures games[x].romof in {name} + Family(games, p)
      {
        if x in Family(games, p) {
          ParentIn(games, p, x);
        }
      }
      FamilyClosed(games, {name} + Family(games, p), name);
    } else {
      FamilyClosed(games, {name}, name);
    }
  }

  lemma {:induction false} NthRank(games: Games, rank: string -> nat, name: string, k: nat)
    requires Acyclic(games, rank) && Nth(games, name, k).Some?
    ensures rank(Nth(games, name, k).value) <= rank(name)
  {
    if k > 0 {
      NthRank(games, rank, name, k - 1);
    }
  }

  lemma AcyclicNoCycle(games: Games, rank: string -> nat, name: string)
    requires Acyclic(games, rank)
    ensures !OnCycle(games, name)
  {
    if OnCycle(games, name) {
      var k: nat :| Nth(games, games[name].romof, k) == Some(name);
      NthRank(games, rank, games[name].romof, k);
    }
  }

  /** The same links. */
  ghost predicate SameLinks(start: Games, now: Games) {
    now.Keys == start.Keys && forall n | n in start :: now[n].romof == start[n].romof
  }

  lemma {:induction false} SameWalk(start: Games, now: Games, name: string, k: nat)
    requires SameLinks(start, now) && name in start
    ensures Walk(now, name, k) == Walk(start, name, k) && Nth(now, name, k) == Nth(start, name, k)
  {
    if k > 0 {
      SameWalk(start, now, name, k - 1);
    }
  }

  lemma SameFamily(start: Games, now: Games, name: string)
    requires SameLinks(start, now) && name in start
    ensures Family(now, name) == Family(start, name) && (Ends(now, name) <==> Ends(start, name))
  {
    forall k: nat
      ensures Walk(now, name, k) == Walk(start, name, k) && Nth(now, name, k) == Nth(start, name, k)
    {
      SameWalk(start, now, name, k);
    }
  }

  // ----- what the games have

  /** The sizes and crcs of some games. */
  ghost predicate HasIn(games: Games, names: set<string>, key: Key) { exists a :: a in names && a in games && HasRom(games[a].roms, key) }

  predicate HasRom(roms: map<string, Rom>, key: Key) { exists r :: r in roms && roms[r].key == key }

  /** The roms whose keys none of these games has. */
  ghost function Cut(roms: map<string, Rom>, games: Games, seen: set<string>): map<string, Rom> {
    map r | r in roms && !HasIn(games, seen, roms[r].key) :: roms[r]
  }

  /** The state of the reduction: the links are as they were; families have the keys they
      had; a game that is done shares no key with a game above it, and if it is on no cycle
      it has exactly its roms that no game above it had at the start. */
  ghost predicate Between(start: Games, now: Games, done: set<string>) {
    && SameLinks(start, now)
    && (forall n | n in start :: now[n].roms == start[n].roms || n in done)
    && (forall n | n in start :: forall r | r in now[n].roms :: r in start[n].roms && now[n].roms[r] == start[n].roms[r])
    && (forall n, key | n in start :: HasIn(now, Family(start, n), key) <==> HasIn(start, Family(start, n), key))
    && (forall n | n in done && n in start :: Apart(start, now, n))
    && (forall n | n in done && n in start && !OnCycle(start, n) :: now[n].roms == Cut(start[n].roms, start, Above(start, n)))
  }

  ghost predicate Apart(start: Games, now: Games, n: string)
    requires n in now
  {
    forall r | r in now[n].roms :: !HasIn(now, Above(start, n), now[n].roms[r].key)
  }

  /** One game loses the keys of some others. */
  ghost function CutOne(games: Games, name: string, seen: set<string>): Games
    requires name in games
  {
    games[name := Game(games[name].romof, Cut(games[name].roms, games, seen))]
  }

  /** One game loses the keys of the games above it. */
  ghost function ReducedOne(games: Games, name: string): Games
    requires name in games
  {
    CutOne(games, name, Above(games, name))
  }

  lemma HasLess(games: Games, name: string, names: set<string>, key: Key)
    requires name in games
    ensures HasIn(ReducedOne(games, name), names, key) ==> HasIn(games, names, key)
    ensures name !in names && HasIn(games, names, key) ==> HasIn(ReducedOne(games, name), names, key)
  {
    var now := ReducedOne(games, name);
    if HasIn(now, names, key) {
      var a :| a in names && a in now && HasRom(now[a].roms, key);
      var r :| r in now[a].roms && now[a].roms[r].key == key;
      assert HasRom(games[a].roms, key);
    }
    if name !in names && HasIn(games, names, key) {
      var a :| a in names && a in games && HasRom(games[a].roms, key);
      assert now[a] == games[a];
    }
  }

  /** What a game and its ancestors have together does not change: who loses a key has a
      game above that keeps it. */
  lemma FamilyKept(games: Games, name: string, n: string, key: Key)
    requires name in games && n in games
    ensures HasIn(ReducedOne(games, name), Family(games, n), key) <==> HasIn(games, Family(games, n), key)
  {
    var now := ReducedOne(games, name);
    HasLess(games, name, Family(games, n), key);
    if HasIn(games, Family(games, n), key) {
      var a :| a in Family(games, n) && a in games && HasRom(games[a].roms, key);
      if a == name {
        if HasIn(games, Above(games, name), key) {
          FamilyOf(games, n, name);
          var b :| b in Above(games, name) && b in games && HasRom(games[b].roms, key);
          assert b in Family(games, n) && now[b] == games[b];
        } else {
          var r :| r in games[name].roms && games[name].roms[r].key == key;
          assert r in now[name].roms && now[name].roms[r].key == key;
          assert HasRom(now[name].roms, key);
        }
      } else {
        assert now[a] == games[a];
      }
    }
  }

  /** The games above one that is on no cycle have the keys they had. */
  lemma AboveKept(start: Games, now: Games, done: set<string>, name: string, key: Key)
    requires Between(start, now, done) && name in start && !OnCycle(start, name)
    ensures HasIn(now, Above(start, name), key) <==> HasIn(start, Above(start, name), key)
  {
    AboveIs(start, name);
    if HasParent(start, name) {
      assert HasIn(now, Family(start, start[name].romof), key) <==> HasIn(start, Family(start, start[name].romof), key);
    }
  }

  lemma ApartNext(start: Games, before: Games, done: set<string>, name: string, n: string)
    requires Between(start, before, done) && name in start && n in start && (n in done || n == name)
    ensures Apart(start, ReducedOne(before, name), n)
  {
    var now := ReducedOne(before, name);
    SameFamily(start, before, name);
    forall r | r in now[n].roms
      ensures !HasIn(now, Above(start, n), now[n].roms[r].key)
    {
      HasLess(before, name, Above(start, n), now[n].roms[r].key);
    }
  }

  /** One more game is reduced. */
  lemma BetweenNext(start: Games, before: Games, done: set<string>, name: string)
    requires Between(start, before, done) && name in start && name !in done
    ensures Between(start, ReducedOne(before, name), done + {name})
  {
    var now := ReducedOne(before, name);
    SameFamily(start, before, name);
    forall n, key | n in start
      ensures HasIn(now, Family(start, n), key) <==> HasIn(start, Family(start, n), key)
    {
      SameFamily(start, before, n);
      FamilyKept(before, name, n, key);
    }
    forall n | n in start && n in done + {name}
      ensures Apart(start, now, n)
    {
      ApartNext(start, before, done, name, n);
    }
    if !OnCycle(start, name) {
      forall key
        ensures HasIn(before, Above(start, name), key) <==> HasIn(start, Above(start, name), key)
      {
        AboveKept(start, before, done, name, key);
      }
    }
  }

  /** Without cycles each game ends with exactly its roms that no ancestor had at the start,
      in whatever order the games were reduced. */
  lemma Merged(start: Games, now: Games, rank: string -> nat)
    requires Between(start, now, start.Keys) && Acyclic(start, rank)
    ensures forall n | n in start :: n in now && now[n] == Game(start[n].romof, Cut(start[n].roms, start, Above(start, n)))
  {
    forall n | n in start
      ensures now[n] == Game(start[n].romof, Cut(start[n].roms, start, Above(start, n)))
    {
      AcyclicNoCycle(start, rank, n);
    }
  }

  // ----- the reduction

  /** `rs_remove_crc` */
  method RemoveCrc(roms: map<string, Rom>, keys: set<Key>) returns (rest: map<string, Rom>)
    ensures rest == map r | r in roms && roms[r].key !in keys :: roms[r]
  {
    rest := map[];
    var todo := roms.Keys;
    while todo != {}
      invariant todo <= roms.Keys
      invariant forall r :: r in rest <==> r in roms && r !in todo && roms[r].key !in keys
      invariant forall r | r in rest :: rest[r] == roms[r]
      decreases |todo|
    {
      var r :| r in todo;
      if roms[r].key !in keys {
        rest := rest[r := roms[r]];
      }
      todo := todo - {r};
    }
  }

  /** The sizes and crcs of one game. */
  function KeysOf(g: Game): set<Key> { set r | r in g.roms :: g.roms[r].key }

  lemma CutNone(games: Games, name: string)
    requires name in games
    ensures CutOne(games, name, {}) == games
  {
    assert Cut(games[name].roms, games, {}) == games[name].roms;
  }

  /** One more game is seen. */
  lemma CutNext(games: Games, name: string, seen: set<string>, p: string)
    requires name in games && p in games && p != name
    ensures var now := CutOne(games, name, seen);
            now[p] == games[p] &&
            now[name := now[name].(roms := map r | r in now[name].roms && now[name].roms[r].key !in KeysOf(now[p]) :: now[name].roms[r])] ==
              CutOne(games, name, seen + {p})
  {
    var roms := games[name].roms;
    forall r | r in roms
      ensures HasIn(games, seen + {p}, roms[r].key) <==> HasIn(games, seen, roms[r].key) || roms[r].key in KeysOf(games[p])
    {
      var key := roms[r].key;
      assert key in KeysOf(games[p]) <==> HasRom(games[p].roms, key);
      if HasIn(games, seen, key) {
        var a :| a in seen && a in games && HasRom(games[a].roms, key);
        assert a in seen + {p};
      }
    }
    var now := CutOne(games, name, seen);
    var rest := map r | r in now[name].roms && now[name].roms[r].key !in KeysOf(now[p]) :: now[name].roms[r];
    assert rest == Cut(roms, games, seen + {p});
    assert now[name := now[name].(roms := rest)] == games[name := Game(games[name].romof, rest)];
  }

  /** What a walk has seen when it stands at `romof`, coming from `at`. */
  ghost predicate Seen(games: Games, name: string, seen: set<string>, at: string, romof: string) {
    && name in games && at in games && romof == games[at].romof
    && name !in seen && at in seen + {name} && seen <= Family(games, name)
    && (forall m | m in seen + {name} && m != at && HasParent(games, m) :: games[m].romof in seen + {name})
  }

  lemma SeenNone(games: Games, name: string)
    requires name in games
    ensures Seen(games, name, {}, name, games[name].romof) == true
  {
  }

  lemma SeenNext(games: Games, name: string, seen: set<string>, at: string, romof: string)
    requires Seen(games, name, seen, at, romof) == true && romof != "" && romof in games && romof != name && romof != at
    ensures Seen(games, name, seen + {romof}, romof, games[romof].romof) == true
  {
    InFamily(games, name);
    ParentIn(games, name, at);
  }

  lemma WalkNext(games: Games, name: string, k: nat, romof: string, last: nat)
    requires name in games && Walk(games, name, k) == (true, romof) && k < last && !Walk(games, name, last).0
    requires romof != "" && romof in games && romof != name && games[romof].romof != romof
    ensures Walk(games, name, k + 1) == (true, games[romof].romof) && k + 1 < last
  {
  }

  /** The walk ends where there is nothing more to see. */
  lemma SeenAll(games: Games, name: string, seen: set<string>, at: string, romof: string)
    requires Seen(games, name, seen, at, romof) == true && (romof == name || !HasParent(games, at))
    ensures seen == Above(games, name)
  {
    FamilyClosed(games, seen + {name}, name);
  }

  class GameArchive {
    var games: Games

    constructor (games: Games)
      ensures this.games == games
    {
      this.games := games;
    }

    /** The reduction of one game: the walk up its chain. It takes the turns of `Walk`, so it
        may be asked for exactly where these end. */
    method ReduceGame(name: string)
      requires name in games && Ends(games, name)
      modifies this`games
      ensures games == ReducedOne(old(games), name)
    {
      ghost var start := games;
      ghost var last: nat :| !Walk(start, name, last).0;
      ghost var k: nat, at: string := 0, name;
      ghost var seen: set<string> := {};
      var romof := games[name].romof;
      CutNone(start, name);
      SeenNone(start, name);
      while romof != ""
        invariant Seen(start, name, seen, at, romof) == true && k < last && Walk(start, name, k) == (true, romof)
        invariant (romof != at || at == name) && romof == start[at].romof
        invariant games == CutOne(start, name, seen)
        decreases last - k
      {
        if romof !in games {
          break;
        }
        if romof == name {
          break;
        }
        CutNext(start, name, seen, romof);
        SeenNext(start, name, seen, at, romof);
        var roms := RemoveCrc(games[name].roms, KeysOf(games[romof]));
        games := games[name := games[name].(roms := roms)];
        seen, at := seen + {romof}, romof;
        var parent := romof;
        romof := games[parent].romof;
        if romof == parent {
          break;
        }
        WalkNext(start, name, k, parent, last);
        k := k + 1;
      }
      SeenAll(start, name, seen, at, romof);
    }

    /** The reduction of all games, in any order, of an archive on which all walks end. */
    method Reduce()
      requires forall n | n in games :: Ends(games, n)
      modifies this`games
      ensures Between(old(games), games, old(games).Keys)
    {
      ghost var start := games;
      var todo := games.Keys;
      while todo != {}
        invariant todo <= start.Keys && Between(start, games, start.Keys - todo)
        decreases |todo|
      {
        var name :| name in todo;
        SameFamily(start, games, name);
        BetweenNext(start, games, start.Keys - todo, name);
        ReduceGame(name);
        assert start.Keys - todo + {name} == start.Keys - (todo - {name});
        todo := todo - {name};
      }
    }
  }
}
