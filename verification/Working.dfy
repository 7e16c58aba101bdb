/** Working games and the filters on them (game.cc:341-406, 520-583, scan.cc:1769-1787). */
module Working {

  /** The fields of a game that do not change here. */
  datatype Info = Info(romof: string, working: bool, resource: bool, sons: seq<string>)

  type Infos = map<string, Info>

  predicate HasParent(v: Infos, n: string)
    requires n in v
  {
    v[n].romof in v
  }

  /** No `romof` cycle, by a rank that grows from a game to its sons, and lists of sons that
      mirror `romof`. */
  ghost predicate Forest(v: Infos, rank: string -> nat, top: nat) {
    forall k {:trigger TreeAsked(k)} :: TreeAsked(k) ==> IsForest(v, rank, top)
  }

  predicate TreeAsked(k: int) { true }

  ghost predicate IsForest(v: Infos, rank: string -> nat, top: nat) {
    (forall n | n in v :: rank(n) < top) &&
    (forall n | n in v && HasParent(v, n) :: rank(v[n].romof) < rank(n)) &&
    (forall n, m :: n in v && m in v[n].sons ==> m in v && v[m].romof == n) &&
    (forall m | m in v && HasParent(v, m) :: m in v[v[m].romof].sons)
  }

  /** The lists of sons mirror `romof`. */
  ghost predicate Mirrored(v: Infos) {
    forall n, m :: n in v ==> (m in v[n].sons <==> m in v && v[m].romof == n)
  }

  lemma MirroredForest(v: Infos, rank: string -> nat, top: nat)
    requires forall n | n in v :: rank(n) < top
    requires forall n | n in v && HasParent(v, n) :: rank(v[n].romof) < rank(n)
    requires Mirrored(v)
    ensures Forest(v, rank, top)
  {
  }

  /** `is_game_parent` */
  predicate IsRoot(v: Infos, n: string)
    requires n in v
  {
    !HasParent(v, n) || v[v[n].romof].resource
  }

  /** `n` is `a` or descends from it. */
  ghost predicate Below(v: Infos, rank: string -> nat, top: nat, a: string, n: string)
    requires Forest(v, rank, top) && n in v
    decreases rank(n)
  {
    n == a || (assert TreeAsked(0); HasParent(v, n) && Below(v, rank, top, a, v[n].romof))
  }

  /** A game that works or has a descendant that works. */
  ghost predicate HasWorking(v: Infos, rank: string -> nat, top: nat, n: string)
    requires Forest(v, rank, top)
  {
    exists w :: w in v && v[w].working && Below(v, rank, top, n, w)
  }

  lemma {:induction false} BelowTrans(v: Infos, rank: string -> nat, top: nat, a: string, b: string, n: string)
    requires Forest(v, rank, top) && b in v && n in v && Below(v, rank, top, a, b) && Below(v, rank, top, b, n)
    ensures Below(v, rank, top, a, n)
    decreases rank(n)
  {
    assert TreeAsked(0);
    if n != b {
      BelowTrans(v, rank, top, a, b, v[n].romof);
    }
  }

  /** What is below a game and not the game is below exactly one of its sons. */
  lemma {:induction false} BelowSon(v: Infos, rank: string -> nat, top: nat, a: string, n: string) returns (s: string)
    requires Forest(v, rank, top) && a in v && n in v && n != a && Below(v, rank, top, a, n)
    ensures s in v[a].sons && Below(v, rank, top, s, n)
    ensures forall t | t in v[a].sons && Below(v, rank, top, t, n) :: t == s
    ensures rank(a) < rank(n)
    decreases rank(n)
  {
    assert TreeAsked(0);
    var p := v[n].romof;
    if p == a {
      s := n;
      forall t | t in v[a].sons && Below(v, rank, top, t, n)
        ensures t == s
      {
        if t != n {
          BelowRank(v, rank, top, t, a);
        }
      }
    } else {
      s := BelowSon(v, rank, top, a, p);
      assert n !in v[a].sons;
    }
  }

  lemma {:induction false} BelowRank(v: Infos, rank: string -> nat, top: nat, a: string, n: string)
    requires Forest(v, rank, top) && a in v && n in v && Below(v, rank, top, a, n)
    ensures rank(a) <= rank(n)
    decreases rank(n)
  {
    assert TreeAsked(0);
    if n != a {
      BelowRank(v, rank, top, a, v[n].romof);
    }
  }

  lemma SonBelow(v: Infos, rank: string -> nat, top: nat, a: string, s: string, n: string)
    requires Forest(v, rank, top) && a in v && s in v[a].sons && n in v && Below(v, rank, top, s, n)
    ensures Below(v, rank, top, a, n) && rank(a) < rank(s)
  {
    assert TreeAsked(0);
    assert Below(v, rank, top, a, a) && Below(v, rank, top, a, s);
    BelowTrans(v, rank, top, a, s, n);
  }

  /** A game has a working one iff it works or one of its sons has. */
  lemma WorkingSons(v: Infos, rank: string -> nat, top: nat, a: string)
    requires Forest(v, rank, top) && a in v
    ensures HasWorking(v, rank, top, a) <==>
            v[a].working || exists s :: s in v[a].sons && HasWorking(v, rank, top, s)
  {
    assert TreeAsked(0);
    if HasWorking(v, rank, top, a) && !v[a].working {
      var w :| w in v && v[w].working && Below(v, rank, top, a, w);
      var s := BelowSon(v, rank, top, a, w);
      assert HasWorking(v, rank, top, s);
    }
    if v[a].working {
      assert Below(v, rank, top, a, a);
    }
    forall s | s in v[a].sons && HasWorking(v, rank, top, s)
      ensures HasWorking(v, rank, top, a)
    {
      var w :| w in v && v[w].working && Below(v, rank, top, s, w);
      SonBelow(v, rank, top, a, s, w);
    }
  }

  // ----- one working game for a family

  /** The way to the first working game in or below `a`, sons in order; none if there is no
      working game. */
  ghost function Path(v: Infos, rank: string -> nat, top: nat, a: string): seq<string>
    requires Forest(v, rank, top) && a in v
    decreases top - rank(a), |v[a].sons| + 1
  {
    if v[a].working then [a]
    else
      var p := SonsPath(v, rank, top, a, 0);
      if p == [] then [] else [a] + p
  }

  /** The way through the first of the sons from the `k`th on that has one. */
  ghost function SonsPath(v: Infos, rank: string -> nat, top: nat, a: string, k: nat): seq<string>
    requires Forest(v, rank, top) && a in v && k <= |v[a].sons|
    decreases top - rank(a), |v[a].sons| - k
  {
    if k == |v[a].sons| then []
    else
      var s := v[a].sons[k];
      assert TreeAsked(0);
      assert s in v[a].sons && v[s].romof == a;
      var p := Path(v, rank, top, s);
      if p != [] then p else SonsPath(v, rank, top, a, k + 1)
  }

  /** From `a` down to a working game, over games that do not work. */
  ghost predicate IsWay(v: Infos, a: string, p: seq<string>) {
    p != [] && p[0] == a && (forall i | 0 <= i < |p| :: p[i] in v) &&
    (forall i | 0 <= i < |p| - 1 :: v[p[i + 1]].romof == p[i] && !v[p[i]].working) && v[p[|p| - 1]].working
  }

  lemma {:induction false} PathIsWay(v: Infos, rank: string -> nat, top: nat, a: string)
    requires Forest(v, rank, top) && a in v
    ensures Path(v, rank, top, a) != [] ==> IsWay(v, a, Path(v, rank, top, a))
    ensures Path(v, rank, top, a) != [] <==> HasWorking(v, rank, top, a)
    decreases top - rank(a), |v[a].sons| + 1
  {
    assert TreeAsked(0);
    WorkingSons(v, rank, top, a);
    if !v[a].working {
      SonsPathIsWay(v, rank, top, a, 0);
      assert v[a].sons[0..] == v[a].sons;
    }
  }

  lemma {:induction false} SonsPathIsWay(v: Infos, rank: string -> nat, top: nat, a: string, k: nat)
    requires Forest(v, rank, top) && a in v && k <= |v[a].sons|
    ensures var p := SonsPath(v, rank, top, a, k); p != [] ==> p[0] in v[a].sons && IsWay(v, p[0], p)
    ensures SonsPath(v, rank, top, a, k) != [] <==>
            exists s :: s in v[a].sons[k..] && HasWorking(v, rank, top, s)
    decreases top - rank(a), |v[a].sons| - k
  {
    assert TreeAsked(0);
    if k < |v[a].sons| {
      var s := v[a].sons[k];
      assert v[s].romof == a;
      assert v[a].sons[k..] == [s] + v[a].sons[k + 1..];
      PathIsWay(v, rank, top, s);
      SonsPathIsWay(v, rank, top, a, k + 1);
    }
  }

  /** Everything on a way is below its start. */
  lemma {:induction false} WayBelow(v: Infos, rank: string -> nat, top: nat, a: string, p: seq<string>, i: nat)
    requires Forest(v, rank, top) && IsWay(v, a, p) && i < |p|
    ensures Below(v, rank, top, a, p[i])
    decreases i
  {
    assert TreeAsked(0);
    if i > 0 {
      WayBelow(v, rank, top, a, p, i - 1);
      assert v[p[i - 1 + 1]].romof == p[i - 1];
    }
  }

  // ----- the archive

  class Game {
    const name: string
    var romof: string
    const working: bool
    const resource: bool
    var sons: seq<string>
    var workingSubset: bool
    var workingParentSubset: bool

    constructor (name: string, romof: string, working: bool, resource: bool)
      ensures this.name == name && this.romof == romof && this.working == working && this.resource == resource
      ensures sons == [] && !workingSubset && !workingParentSubset
    {
      this.name, this.romof, this.working, this.resource := name, romof, working, resource;
      sons, workingSubset, workingParentSubset := [], false, false;
    }
  }

  class GameArchive {
    var games: map<string, Game>
    /** The order of iteration, by name. */
    var order: seq<string>

    constructor (games: map<string, Game>, order: seq<string>)
      ensures this.games == games && this.order == order
    {
      this.games, this.order := games, order;
    }

    ghost predicate Valid()
      reads this
    {
      (forall n | n in games :: games[n].name == n) && (forall n :: n in order <==> n in games)
    }

    ghost function View(): Infos
      reads this, games.Values`sons, games.Values`romof
    {
      map n | n in games :: Info(games[n].romof, games[n].working, games[n].resource, games[n].sons)
    }

    /** The flags, as the set of the games that have them set. */
    ghost function Subset(): set<string>
      reads this, games.Values`workingSubset
    {
      set n | n in games && games[n].workingSubset
    }

    ghost function ParentSubset(): set<string>
      reads this, games.Values`workingParentSubset
    {
      set n | n in games && games[n].workingParentSubset
    }

    /** `romof` is taken away from games that name themselves or a missing game. */
    method AdjustRomof()
      requires Valid() && "" !in games
      modifies games.Values`romof
      ensures forall n | n in games ::
                games[n].romof == if old(games[n].romof) in games && old(games[n].romof) != n then old(games[n].romof) else ""
    {
      var i := 0;
      while i < |order|
        invariant i <= |order|
        invariant forall n | n in games ::
                    games[n].romof == old(games[n].romof) ||
                    (games[n].romof == "" && (old(games[n].romof) !in games || old(games[n].romof) == n))
        invariant forall k | 0 <= k < i ::
                    games[order[k]].romof == "" || (games[order[k]].romof in games && games[order[k]].romof != order[k])
      {
        var g := games[order[i]];
        if g.romof != "" && (g.romof !in games || g.romof == g.name) {
          g.romof := "";
        }
        i := i + 1;
      }
    }

    /** The lists of sons. */
    method ComputeSons()
      requires Valid() && forall n | n in games :: games[n].sons == []
      modifies games.Values`sons
      ensures Mirrored(View()) == true
    {
      var i := 0;
      while i < |order|
        invariant i <= |order|
        invariant forall n, m :: n in games ==> (m in games[n].sons <==> m in order[..i] && games[m].romof == n)
      {
        var g := games[order[i]];
        assert order[..i + 1] == order[..i] + [g.name];
        if g.romof in games {
          var j := games[g.romof];
          j.sons := j.sons + [g.name];
          assert forall n | n in games :: games[n] == j <==> n == g.romof;
        }
        i := i + 1;
      }
      assert order[..i] == order;
      assert forall n | n in games :: View()[n].sons == games[n].sons;
    }

    method SetSubset(g: Game)
      requires Valid() && g.name in games && games[g.name] == g
      modifies g`workingSubset
      ensures Subset() == old(Subset()) + {g.name}
    {
      g.workingSubset := true;
      assert forall n | n in games :: games[n] == g ==> n == g.name;
    }

    method SetParentSubset(g: Game)
      requires Valid() && g.name in games && games[g.name] == g
      modifies g`workingParentSubset
      ensures ParentSubset() == old(ParentSubset()) + {g.name}
    {
      g.workingParentSubset := true;
      assert forall n | n in games :: games[n] == g ==> n == g.name;
    }

    /** `game_working_subset_compute`: marks the games below `g` that have a working game. */
    method GameWorkingSubsetCompute(g: Game, ghost rank: string -> nat, ghost top: nat)
      returns (result: bool, ghost marked: set<string>)
      requires Valid() && Forest(View(), rank, top) && g.name in games && games[g.name] == g
      modifies games.Values`workingSubset
      ensures Marked(View(), rank, top, [g.name], result, marked) == true
      ensures Subset() == old(Subset()) + marked
      decreases top - rank(g.name), 1
    {
      ghost var any;
      result, any, marked := MarkSons(g, rank, top);
      SonsMarked(View(), rank, top, g.name, any, marked);
      if result {
        SetSubset(g);
        marked := marked + {g.name};
      }
    }

    /** Its loop over the sons. */
    method MarkSons(g: Game, ghost rank: string -> nat, ghost top: nat)
      returns (result: bool, ghost any: bool, ghost marked: set<string>)
      requires Valid() && Forest(View(), rank, top) && g.name in games && games[g.name] == g
      modifies games.Values`workingSubset
      ensures result == (g.working || any)
      ensures Marked(View(), rank, top, View()[g.name].sons, any, marked) == true
      ensures Subset() == old(Subset()) + marked
      decreases top - rank(g.name), 0
    {
      ghost var v := View();
      result, any, marked := g.working, false, {};
      NoRoots(v, rank, top);
      var sons, i := g.sons, 0;
      while i < |sons|
        invariant i <= |sons| && sons == v[g.name].sons && result == (g.working || any)
        invariant Marked(v, rank, top, sons[..i], any, marked) == true
        invariant Subset() == old(Subset()) + marked
      {
        var s := sons[i];
        SonOf(v, rank, top, g.name, i);
        if s in games {
          ghost var before, more := marked, {};
          var r: bool;
          r, more := GameWorkingSubsetCompute(games[s], rank, top);
          assert View() == v && games[s].name == s;
          OneRoot(v, rank, top, sons[..i], any, before, s, r, more);
          any := any || r;
          if r {
            result := true;
          }
          marked := before + more;
        }
        assert sons[..i + 1] == sons[..i] + [s];
        i := i + 1;
      }
      assert sons[..i] == sons;
    }

    /** `game_working_parent_subset_compute`: marks the way to the first working game. */
    method GameWorkingParentSubsetCompute(g: Game, ghost rank: string -> nat, ghost top: nat)
      returns (result: bool, ghost path: seq<string>)
      requires Valid() && Forest(View(), rank, top) && g.name in games && games[g.name] == g
      modifies games.Values`workingParentSubset
      ensures path == Path(View(), rank, top, g.name) && result == (path != [])
      ensures ParentSubset() == old(ParentSubset()) + Elements(path)
      decreases top - rank(g.name), 1
    {
      result, path := g.working, [];
      if !result {
        result, path := FirstWorkingSon(g, rank, top);
      }
      if result {
        SetParentSubset(g);
        path := [g.name] + path;
      }
    }

    /** Its loop over the sons. */
    method FirstWorkingSon(g: Game, ghost rank: string -> nat, ghost top: nat)
      returns (result: bool, ghost path: seq<string>)
      requires Valid() && Forest(View(), rank, top) && g.name in games && games[g.name] == g
      modifies games.Values`workingParentSubset
      ensures path == SonsPath(View(), rank, top, g.name, 0) && result == (path != [])
      ensures ParentSubset() == old(ParentSubset()) + Elements(path)
      decreases top - rank(g.name), 0
    {
      ghost var v := View();
      result, path := false, [];
      var i := 0;
      while i < |g.sons|
        invariant i <= |g.sons|
        invariant SonsPath(v, rank, top, g.name, 0) == SonsPath(v, rank, top, g.name, i)
        invariant ParentSubset() == old(ParentSubset())
      {
        var s := g.sons[i];
        SonOf(v, rank, top, g.name, i);
        SonsStep(v, rank, top, g.name, i);
        if s in games {
          result, path := GameWorkingParentSubsetCompute(games[s], rank, top);
          assert View() == v && games[s].name == s;
          if result {
            return;
          }
        }
        i := i + 1;
      }
      path := [];
    }

    method IsGameParent(g: Game) returns (b: bool)
      requires Valid() && g.name in games && games[g.name] == g
      ensures b == IsRoot(View(), g.name)
    {
      if g.romof !in games {
        return true;
      }
      return games[g.romof].resource;
    }

    /** One turn of the first of the two loops of `load`. */
    method MarkGame(g: Game, ghost rank: string -> nat, ghost top: nat)
      requires Valid() && Forest(View(), rank, top) && g.name in games && games[g.name] == g
      modifies games.Values`workingSubset
      ensures forall n | n in View() :: n in Subset() <==>
                n in old(Subset()) || (n == g.name && g.resource) || MarkedIn(View(), rank, top, g.name, n)
    {
      ghost var v := View();
      if g.resource {
        SetSubset(g);
      } else {
        var isParent := IsGameParent(g);
        if isParent {
          var r;
          ghost var more;
          r, more := GameWorkingSubsetCompute(g, rank, top);
          MarkedBy(v, rank, top, g.name, r, more);
        }
      }
    }

    /** The first of the two loops of `load`. */
    method MarkSubsets(ghost rank: string -> nat, ghost top: nat)
      requires Valid() && Forest(View(), rank, top) && Subset() == {}
      modifies games.Values`workingSubset
      ensures SubsetSet(View(), rank, top, Subset())
    {
      ghost var v := View();
      var i := 0;
      while i < |order|
        invariant i <= |order|
        invariant forall n | n in v :: n in Subset() <==> InFamily(v, rank, top, order[..i], n)
      {
        var g := games[order[i]];
        assert order[..i + 1] == order[..i] + [g.name];
        MarkGame(g, rank, top);
        OneName(v, rank, top, order[..i], g.name);
        i := i + 1;
      }
      assert order[..i] == order;
    }

    method MarkParentGame(g: Game, ghost rank: string -> nat, ghost top: nat)
      requires Valid() && Forest(View(), rank, top) && g.name in games && games[g.name] == g
      modifies games.Values`workingParentSubset
      ensures forall n | n in View() :: n in ParentSubset() <==>
                n in old(ParentSubset()) || OnWay(View(), rank, top, [g.name], n)
    {
      ghost var v := View();
      assert g.name in [g.name];
      if g.resource {
        SetParentSubset(g);
      } else {
        var isParent := IsGameParent(g);
        if isParent {
          var r;
          ghost var path;
          r, path := GameWorkingParentSubsetCompute(g, rank, top);
        }
      }
    }

    /** The second one. */
    method MarkParentSubsets(ghost rank: string -> nat, ghost top: nat)
      requires Valid() && Forest(View(), rank, top) && ParentSubset() == {}
      modifies games.Values`workingParentSubset
      ensures ParentsSet(View(), rank, top, ParentSubset())
    {
      ghost var v := View();
      var i := 0;
      while i < |order|
        invariant i <= |order|
        invariant forall n | n in v :: n in ParentSubset() <==> OnWay(v, rank, top, order[..i], n)
      {
        var g := games[order[i]];
        MarkParentGame(g, rank, top);
        assert order[..i + 1] == order[..i] + [g.name];
        OneMoreWay(v, rank, top, order[..i], g.name);
        i := i + 1;
      }
      assert order[..i] == order;
    }

    /** The flags of `load`. */
    method ComputeFlags(ghost rank: string -> nat, ghost top: nat)
      requires Valid() && Forest(View(), rank, top) && Subset() == {} && ParentSubset() == {}
      modifies games.Values`workingSubset, games.Values`workingParentSubset
      ensures FlagsSet(View(), rank, top, Subset(), ParentSubset())
    {
      MarkSubsets(rank, top);
      MarkParentSubsets(rank, top);
    }

    /** The links of `load`, for archives without `romof` cycle. */
    method LinkGames(ghost rank: string -> nat, ghost top: nat)
      requires Valid() && "" !in games
      requires forall n | n in games :: games[n].sons == [] && rank(n) < top
      requires forall n | n in games && games[n].romof in games && games[n].romof != n :: rank(games[n].romof) < rank(n)
      modifies games.Values`romof, games.Values`sons
      ensures Forest(View(), rank, top)
      ensures forall n | n in games ::
                games[n].romof == if old(games[n].romof) in games && old(games[n].romof) != n then old(games[n].romof) else ""
    {
      AdjustRomof();
      ComputeSons();
      ghost var v := View();
      MirroredForest(v, rank, top);
    }

    /** The end of `load`. */
    method Finish(ghost rank: string -> nat, ghost top: nat)
      requires Valid() && "" !in games && Subset() == {} && ParentSubset() == {}
      requires forall n | n in games :: games[n].sons == [] && rank(n) < top
      requires forall n | n in games && games[n].romof in games && games[n].romof != n :: rank(games[n].romof) < rank(n)
      modifies games.Values
      ensures Forest(View(), rank, top) && FlagsSet(View(), rank, top, Subset(), ParentSubset())
    {
      LinkGames(rank, top);
      ComputeFlags(rank, top);
    }

    /** `filter` with one of the filters of scan.cc: the games that pass it are left. */
    method FilterGames(f: Filter)
      requires Valid()
      modifies this`games, this`order
      ensures Valid()
      ensures games == map n | n in old(games) && Passes(f, n in old(Subset()), n in old(ParentSubset())) :: old(games)[n]
    {
      ghost var start := games;
      var names, left: seq<string>, i := order, [], 0;
      while i < |names|
        invariant i <= |names|
        invariant forall n :: n in games <==> n in start && (n in names[..i] ==> Keeps(f, start[n]))
        invariant forall n | n in games :: games[n] == start[n]
        invariant forall n :: n in left <==> n in names[..i] && n in games
      {
        var g := names[i];
        assert names[..i + 1] == names[..i] + [g];
        if g in games {
          if Keeps(f, games[g]) {
            left := left + [g];
          } else {
            games := map n | n in games && n != g :: games[n];
          }
        }
        i := i + 1;
      }
      assert names[..i] == names;
      order := left;
    }
  }

  /** Without that condition on resources, the working filter keeps every `romof` game
      exactly when each resource stands below a resource or a game with a working one. */
  lemma KeepsExactly(v: Infos, rank: string -> nat, top: nat, subset: set<string>, parents: set<string>)
    requires Forest(v, rank, top) && FlagsSet(v, rank, top, subset, parents)
    ensures (forall n | n in v && HasParent(v, n) && n in subset :: v[n].romof in subset) <==>
            (forall n | n in v && HasParent(v, n) && v[n].resource ::
               v[v[n].romof].resource || HasWorking(v, rank, top, v[n].romof))
  {
    assert TreeAsked(0);
    forall n | n in v
      ensures n in subset <==> v[n].resource || HasWorking(v, rank, top, n)
      ensures HasParent(v, n) && HasWorking(v, rank, top, n) ==> HasWorking(v, rank, top, v[n].romof)
    {
      SubsetExactly(v, rank, top, subset, parents, n);
      if HasParent(v, n) {
        WorkingSons(v, rank, top, v[n].romof);
      }
    }
  }

  /** From a game on the way to a working one there is a working one below. */
  lemma {:induction false} WayWorks(v: Infos, rank: string -> nat, top: nat, a: string, p: seq<string>, i: nat)
    requires Forest(v, rank, top) && IsWay(v, a, p) && i < |p|
    ensures HasWorking(v, rank, top, p[i])
    decreases |p| - i
  {
    assert TreeAsked(0);
    if i + 1 == |p| {
      assert Below(v, rank, top, p[i], p[i]);
    } else {
      WayWorks(v, rank, top, a, p, i + 1);
      assert v[p[i + 1]].romof == p[i] && p[i + 1] in v[p[i]].sons;
      WorkingSons(v, rank, top, p[i]);
    }
  }

  /** What `working_parent_subset` holds for, `working_subset` does: so the working_parent
      filter keeps exactly the former. */
  lemma ParentsInSubset(v: Infos, rank: string -> nat, top: nat, subset: set<string>, parents: set<string>, n: string)
    requires Forest(v, rank, top) && FlagsSet(v, rank, top, subset, parents) && n in v
    ensures n in parents <==> Passes(WorkingParent, n in subset, n in parents)
  {
    SubsetExactly(v, rank, top, subset, parents, n);
    if n in parents && !v[n].resource {
      var r :| IsFamily(v, r) && n in Path(v, rank, top, r);
      PathIsWay(v, rank, top, r);
      var p := Path(v, rank, top, r);
      var i :| 0 <= i < |p| && p[i] == n;
      WayWorks(v, rank, top, r, p, i);
    }
  }

  /** A resource, or on the way to the first working game of a family. */
  ghost predicate Chosen(v: Infos, rank: string -> nat, top: nat, a: string)
    requires Forest(v, rank, top) && a in v
  {
    v[a].resource || exists r :: IsFamily(v, r) && a in Path(v, rank, top, r)
  }

  /** A chosen game that is no resource has a chosen one above it. */
  lemma ChosenParent(v: Infos, rank: string -> nat, top: nat, n: string)
    requires Forest(v, rank, top) && n in v && HasParent(v, n) && !v[n].resource && Chosen(v, rank, top, n)
    ensures Chosen(v, rank, top, v[n].romof)
  {
    var r :| IsFamily(v, r) && n in Path(v, rank, top, r);
    PathIsWay(v, rank, top, r);
    var p := Path(v, rank, top, r);
    var i :| 0 <= i < |p| && p[i] == n;
    if i > 0 {
      assert v[p[i - 1 + 1]].romof == p[i - 1];
      assert p[i - 1] in p;
    }
  }

  /** The same for the working_parent filter: each resource must stand below a resource or a
      game that is itself on the way to the first working one. */
  lemma ParentsKeepExactly(v: Infos, rank: string -> nat, top: nat, subset: set<string>, parents: set<string>)
    requires Forest(v, rank, top) && FlagsSet(v, rank, top, subset, parents)
    ensures (forall n | n in v && HasParent(v, n) && n in parents :: v[n].romof in parents) <==>
            (forall n | n in v && HasParent(v, n) && v[n].resource :: Chosen(v, rank, top, v[n].romof))
  {
    forall n | n in v
      ensures n in parents <==> Chosen(v, rank, top, n)
    {
    }
    forall n | n in v && HasParent(v, n) && !v[n].resource && n in parents
      ensures v[n].romof in parents
    {
      ChosenParent(v, rank, top, n);
    }
  }

  /** A resource below a game that does not work and has nothing working below: both filters
      keep the resource and drop the game that it is a `romof`. */
  lemma ResourceAlone(a: string, n: string, rank: string -> nat, top: nat, subset: set<string>, parents: set<string>)
    requires a != n && a != "" && n != "" && rank(a) < rank(n) < top
    ensures var v := map[a := Info("", false, false, [n]), n := Info(a, false, true, [])];
            && Forest(v, rank, top) && v[n].romof == a
            && (FlagsSet(v, rank, top, subset, parents) ==> n in subset && n in parents && a !in subset && a !in parents)
  {
    var v := map[a := Info("", false, false, [n]), n := Info(a, false, true, [])];
    assert IsForest(v, rank, top);
    assert !HasWorking(v, rank, top, a);
    PathIsWay(v, rank, top, a);
    if FlagsSet(v, rank, top, subset, parents) {
      SubsetExactly(v, rank, top, subset, parents, a);
      SubsetExactly(v, rank, top, subset, parents, n);
    }
  }

  /** The working and the working_parent filter leave no game without the game that it is a
      `romof`. */
  method FilterWorking(a: GameArchive, f: Filter, ghost rank: string -> nat, ghost top: nat)
    requires a.Valid() && Forest(a.View(), rank, top) && TopResources(a.View())
    requires FlagsSet(a.View(), rank, top, a.Subset(), a.ParentSubset()) && (f.OnlyWorking? || f.WorkingParent?)
    modifies a`games, a`order
    ensures a.Valid() && a.games.Keys == set n | n in old(a.games) && Passes(f, n in old(a.Subset()), n in old(a.ParentSubset()))
    ensures forall n | n in a.games && a.games[n].romof in old(a.games) :: a.games[n].romof in a.games
  {
    ghost var v, subset, parents := a.View(), a.Subset(), a.ParentSubset();
    a.FilterGames(f);
    forall n | n in a.games && a.games[n].romof in old(a.games)
      ensures a.games[n].romof in a.games
    {
      ParentKept(v, rank, top, subset, parents, n);
    }
  }

  datatype Filter = Preliminary | OnlyWorking | WorkingParent | WorkingClone

  /** The `filter_` predicates of scan.cc on the two flags. */
  predicate Passes(f: Filter, subset: bool, parent: bool) {
    match f
    case Preliminary => !subset
    case OnlyWorking => subset
    case WorkingParent => subset && parent
    case WorkingClone => subset && !parent
  }

  predicate Keeps(f: Filter, g: Game)
    reads g
  {
    Passes(f, g.workingSubset, g.workingParentSubset)
  }

  lemma SonsStep(v: Infos, rank: string -> nat, top: nat, a: string, i: nat)
    requires Forest(v, rank, top) && a in v && i < |v[a].sons| && v[a].sons[i] in v
    ensures SonsPath(v, rank, top, a, i) ==
            var p := Path(v, rank, top, v[a].sons[i]); if p != [] then p else SonsPath(v, rank, top, a, i + 1)
  {
  }

  function Elements(p: seq<string>): set<string> { set n | n in p }

  /** Whether one of the roots has a working game, and the games below them that have one. */
  ghost predicate Marked(v: Infos, rank: string -> nat, top: nat, roots: seq<string>, any: bool, marked: set<string>)
    requires Forest(v, rank, top)
  {
    forall k {:trigger Asked(k)} :: Asked(k) ==>
      (any <==> exists s :: s in roots && HasWorking(v, rank, top, s)) &&
      (forall n :: n in marked <==>
        n in v && HasWorking(v, rank, top, n) && exists a :: a in roots && Below(v, rank, top, a, n))
  }

  predicate Asked(k: int) { true }

  lemma NoRoots(v: Infos, rank: string -> nat, top: nat)
    requires Forest(v, rank, top)
    ensures Marked(v, rank, top, [], false, {})
  {
    assert TreeAsked(0);
  }

  lemma SonOf(v: Infos, rank: string -> nat, top: nat, a: string, i: nat)
    requires Forest(v, rank, top) && a in v && i < |v[a].sons|
    ensures v[a].sons[i] in v && rank(a) < rank(v[a].sons[i]) < top
  {
    assert TreeAsked(0);
    assert v[a].sons[i] in v[a].sons;
  }

  /** One more root. */
  lemma OneRoot(v: Infos, rank: string -> nat, top: nat, roots: seq<string>, any: bool, marked: set<string>,
                s: string, more: bool, moreMarked: set<string>)
    requires Forest(v, rank, top) && Marked(v, rank, top, roots, any, marked) && Marked(v, rank, top, [s], more, moreMarked)
    ensures Marked(v, rank, top, roots + [s], any || more, marked + moreMarked)
  {
    assert TreeAsked(0);
    assert Asked(0) && s in [s];
    var all := roots + [s];
    assert forall a :: a in all <==> a in roots || a == s;
  }

  lemma SonsMarked(v: Infos, rank: string -> nat, top: nat, a: string, any: bool, marked: set<string>)
    requires Forest(v, rank, top) && a in v && Marked(v, rank, top, v[a].sons, any, marked)
    ensures var all := v[a].working || any; Marked(v, rank, top, [a], all, if all then marked + {a} else marked)
  {
    assert TreeAsked(0);
    assert Asked(0) && a in [a];
    WorkingSons(v, rank, top, a);
    forall n | n in v
      ensures Below(v, rank, top, a, n) <==> n == a || exists s :: s in v[a].sons && Below(v, rank, top, s, n)
    {
      if n != a && Below(v, rank, top, a, n) {
        var s := BelowSon(v, rank, top, a, n);
      }
      forall s | s in v[a].sons && Below(v, rank, top, s, n)
        ensures Below(v, rank, top, a, n)
      {
        SonBelow(v, rank, top, a, s, n);
      }
    }
  }

  // ----- families

  /** A root whose tree `load` marks. */
  predicate IsFamily(v: Infos, r: string) { r in v && !v[r].resource && IsRoot(v, r) }

  /** Resources only have resources above them. */
  ghost predicate TopResources(v: Infos) {
    forall n | n in v && v[n].resource && HasParent(v, n) :: v[v[n].romof].resource
  }

  ghost predicate SubsetSet(v: Infos, rank: string -> nat, top: nat, subset: set<string>)
    requires Forest(v, rank, top)
  {
    forall n | n in v ::
      n in subset <==> v[n].resource || exists r :: MarkedIn(v, rank, top, r, n)
  }

  /** On the way to the first working game of one of these families, or one of these
      resources. */
  ghost predicate OnWay(v: Infos, rank: string -> nat, top: nat, names: seq<string>, n: string)
    requires Forest(v, rank, top)
  {
    (n in names && n in v && v[n].resource) ||
    exists r :: r in names && IsFamily(v, r) && n in Path(v, rank, top, r)
  }

  lemma OneMoreWay(v: Infos, rank: string -> nat, top: nat, names: seq<string>, g: string)
    requires Forest(v, rank, top)
    ensures forall n | n in v ::
              OnWay(v, rank, top, names + [g], n) <==> OnWay(v, rank, top, names, n) || OnWay(v, rank, top, [g], n)
  {
    var all := names + [g];
    assert g in [g] && forall r :: r in all <==> r in names || r in [g];
  }

  ghost predicate ParentsSet(v: Infos, rank: string -> nat, top: nat, parents: set<string>)
    requires Forest(v, rank, top)
  {
    forall n | n in v ::
      n in parents <==> v[n].resource || exists r :: IsFamily(v, r) && n in Path(v, rank, top, r)
  }

  /** A marked member of one of these families, or one of these resources. */
  ghost predicate InFamily(v: Infos, rank: string -> nat, top: nat, names: seq<string>, n: string)
    requires Forest(v, rank, top) && n in v
  {
    (n in names && v[n].resource) || exists r :: r in names && MarkedIn(v, rank, top, r, n)
  }

  ghost predicate MarkedIn(v: Infos, rank: string -> nat, top: nat, r: string, n: string)
    requires Forest(v, rank, top) && n in v
  {
    IsFamily(v, r) && Below(v, rank, top, r, n) && HasWorking(v, rank, top, n)
  }

  lemma MarkedBy(v: Infos, rank: string -> nat, top: nat, r: string, any: bool, marked: set<string>)
    requires Forest(v, rank, top) && IsFamily(v, r) && Marked(v, rank, top, [r], any, marked)
    ensures forall n | n in v :: n in marked <==> MarkedIn(v, rank, top, r, n)
    ensures marked <= v.Keys
  {
    assert Asked(0) && r in [r];
  }

  lemma OneName(v: Infos, rank: string -> nat, top: nat, names: seq<string>, g: string)
    requires Forest(v, rank, top)
    ensures forall n | n in v :: InFamily(v, rank, top, names + [g], n) <==>
              InFamily(v, rank, top, names, n) || (n == g && v[n].resource) || MarkedIn(v, rank, top, g, n)
  {
    assert g in names + [g] && forall r :: r in names ==> r in names + [g];
  }

  /** The flags that `load` computes. */
  ghost predicate FlagsSet(v: Infos, rank: string -> nat, top: nat, subset: set<string>, parents: set<string>)
    requires Forest(v, rank, top)
  {
    SubsetSet(v, rank, top, subset) && ParentsSet(v, rank, top, parents)
  }

  /** The family of a game that is no resource. */
  lemma {:induction false} FamilyOf(v: Infos, rank: string -> nat, top: nat, n: string) returns (r: string)
    requires Forest(v, rank, top) && n in v && !v[n].resource
    ensures IsFamily(v, r) && Below(v, rank, top, r, n)
    decreases rank(n)
  {
    assert TreeAsked(0);
    if IsRoot(v, n) {
      r := n;
    } else {
      r := FamilyOf(v, rank, top, v[n].romof);
    }
  }

  /** Nothing above a resource is a game. */
  lemma {:induction false} AboveResource(v: Infos, rank: string -> nat, top: nat, a: string, n: string)
    requires Forest(v, rank, top) && TopResources(v) && a in v && n in v && v[n].resource && Below(v, rank, top, a, n)
    ensures v[a].resource
    decreases rank(n)
  {
    assert TreeAsked(0);
    if n != a {
      AboveResource(v, rank, top, a, v[n].romof);
    }
  }

  /** No game is in two families. */
  lemma {:induction false} OneFamily(v: Infos, rank: string -> nat, top: nat, r: string, q: string, n: string)
    requires Forest(v, rank, top) && TopResources(v) && n in v && IsFamily(v, r) && IsFamily(v, q)
    requires Below(v, rank, top, r, n) && Below(v, rank, top, q, n)
    ensures r == q
    decreases rank(n)
  {
    assert TreeAsked(0);
    if n != r && n != q {
      OneFamily(v, rank, top, r, q, v[n].romof);
    } else if r != q {
      var p := v[n].romof;
      AboveResource(v, rank, top, if n == r then q else r, p);
    }
  }

  /** `working_subset` holds for the resources, and for the games that work or have a
      descendant that works. */
  lemma SubsetExactly(v: Infos, rank: string -> nat, top: nat, subset: set<string>, parents: set<string>, n: string)
    requires Forest(v, rank, top) && FlagsSet(v, rank, top, subset, parents) && n in v
    ensures n in subset <==> v[n].resource || HasWorking(v, rank, top, n)
  {
    if !v[n].resource && HasWorking(v, rank, top, n) {
      var r := FamilyOf(v, rank, top, n);
      assert MarkedIn(v, rank, top, r, n);
    }
  }

  /** `working_parent_subset` keeps of each family the way from its root to one working
      game, which is the only working one kept, or nothing if no game of it works. */
  lemma OnePerFamily(v: Infos, rank: string -> nat, top: nat, subset: set<string>, parents: set<string>, r: string)
    requires Forest(v, rank, top) && TopResources(v) && FlagsSet(v, rank, top, subset, parents) && IsFamily(v, r)
    ensures var p := Path(v, rank, top, r);
            (p != [] <==> HasWorking(v, rank, top, r)) && (p != [] ==> IsWay(v, r, p)) &&
            forall n | n in v && Below(v, rank, top, r, n) :: n in parents <==> n in p
  {
    PathIsWay(v, rank, top, r);
    forall n | n in v && Below(v, rank, top, r, n)
      ensures n in parents <==> n in Path(v, rank, top, r)
    {
      if v[n].resource {
        AboveResource(v, rank, top, r, n);
      } else if n in parents {
        var q :| IsFamily(v, q) && n in Path(v, rank, top, q);
        PathBelow(v, rank, top, q, n);
        OneFamily(v, rank, top, r, q, n);
      }
    }
  }

  lemma PathBelow(v: Infos, rank: string -> nat, top: nat, q: string, n: string)
    requires Forest(v, rank, top) && q in v && n in Path(v, rank, top, q)
    ensures n in v && Below(v, rank, top, q, n)
  {
    PathIsWay(v, rank, top, q);
    var p := Path(v, rank, top, q);
    var i :| 0 <= i < |p| && p[i] == n;
    WayBelow(v, rank, top, q, p, i);
  }

  /** Where there is a game, the working and the working_parent filter keep the game that
      it is a `romof`. */
  lemma ParentKept(v: Infos, rank: string -> nat, top: nat, subset: set<string>, parents: set<string>, n: string)
    requires Forest(v, rank, top) && TopResources(v) && FlagsSet(v, rank, top, subset, parents)
    requires n in v && HasParent(v, n)
    ensures n in subset ==> v[n].romof in subset
    ensures n in parents ==> v[n].romof in parents
  {
    var a := v[n].romof;
    assert TreeAsked(0);
    SubsetExactly(v, rank, top, subset, parents, n);
    SubsetExactly(v, rank, top, subset, parents, a);
    if n in subset && !v[n].resource {
      WorkingSons(v, rank, top, a);
    }
    if n in parents && !v[n].resource {
      var r :| IsFamily(v, r) && n in Path(v, rank, top, r);
      PathIsWay(v, rank, top, r);
      var p := Path(v, rank, top, r);
      var i :| 0 <= i < |p| && p[i] == n;
      if i > 0 {
        assert v[p[i - 1 + 1]].romof == p[i - 1];
        assert a in p;
      }
    }
  }
}
