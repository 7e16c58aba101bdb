/** A whole scan of a game's zip (scan.cc:526-649): what holds after every step. */
module RomRun {
  import opened Wrappers
  import opened RomZip
  import opened RomArchive
  import opened RomFind

  /** How a scan starts: the zip, the reject zip, the game, and the contents of the other zips. */
  datatype Start = Start(ms: seq<Member>, rs: seq<Member>, game: map<string, Rom>, pool: set<Content>)

  /** The books of a scan: what was copied into the zip, the names whose members were moved to
      the reject zip, the names whose members were deleted, the roms that were put in place,
      and the names of the members that were renamed for that. */
  datatype Books = Books(copies: multiset<Content>, moved: set<string>, gone: set<string>, placed: set<string>, renamed: set<string>)

  function NoBooks(): Books { Books(multiset{}, {}, {}, {}, {}) }

  /** The names that the books speak of. */
  function Touched(books: Books): set<string> { books.moved + books.gone + books.placed + books.renamed }

  /** The first member of each of these names. */
  function Taken(ms: seq<Member>, names: set<string>): seq<Member> {
    if ms == [] then []
    else if ms[0].name in names then [ms[0]] + Taken(ms[1..], names - {ms[0].name})
    else Taken(ms[1..], names)
  }

  /** Where every content is after some steps: what was there at the start and what was copied
      is in one of the zips now, or was deleted, or was overwritten in the reject zip by the
      member of that name that was moved there. */
  ghost predicate Balanced(o: Start, now: seq<Member>, rej: seq<Member>, books: Books) {
    Bag(o.ms) + Bag(o.rs) + books.copies ==
    Bag(now) + Bag(rej) + Bag(Taken(o.ms, books.gone)) + Bag(Taken(o.rs, books.moved))
  }

  /** Nothing is invented: what is copied was in one of the zips. */
  ghost predicate Copied(o: Start, copies: multiset<Content>) {
    forall d | d in copies :: d in Bag(o.ms) || d in Bag(o.rs) || d in o.pool
  }

  /** Every other name is as it was at the start, in both zips. */
  ghost predicate Framed(o: Start, now: seq<Member>, rej: seq<Member>, books: Books) {
    forall k {:trigger FramedAsked(k)} :: FramedAsked(k) ==>
      && (forall n | n !in Touched(books) :: Get(now, n) == Get(o.ms, n))
      && (forall n | n !in books.moved && n !in books.placed :: Get(rej, n) == Get(o.rs, n))
  }

  predicate FramedAsked(k: int) { true }

  lemma FramedAt(o: Start, now: seq<Member>, rej: seq<Member>, books: Books, n: string)
    requires Framed(o, now, rej, books) == true && n !in Touched(books)
    ensures Get(now, n) == Get(o.ms, n) && Get(rej, n) == Get(o.rs, n) && HasName(now, n) == HasName(o.ms, n)
  {
    assert FramedAsked(0);
    assert HasName(now, n) == Get(now, n).Some? && HasName(o.ms, n) == Get(o.ms, n).Some?;
  }

  /** A member that was moved, or in whose place a rom was put, is in the reject zip. */
  ghost predicate InReject(o: Start, rej: seq<Member>, books: Books) {
    forall k {:trigger InRejectAsked(k)} :: InRejectAsked(k) ==>
      && (forall n | n in books.moved || n in books.placed :: HasName(o.ms, n) ==> Member(n, Get(o.ms, n).value) in rej)
      && (DistinctNames(o.rs) ==> DistinctNames(rej))
  }

  predicate InRejectAsked(k: int) { true }

  /** Members that were moved, deleted or renamed are not in the zip under their old names any
      more, unless a rom was put there; and these roms are good. */
  ghost predicate Vanished(o: Start, now: seq<Member>, books: Books) {
    forall k {:trigger VanishedAsked(k)} :: VanishedAsked(k) ==>
      && (forall n | n in books.moved :: HasName(o.ms, n))
      && (forall n | n in books.moved || n in books.gone || n in books.renamed :: n in books.placed || Get(now, n).None?)
      && (forall r | r in books.placed :: r in o.game && Matches(Get(now, r), o.game[r].key))
  }

  predicate VanishedAsked(k: int) { true }

  /** The roms that are in place, and those that are not. */
  ghost predicate Settled(o: Start, now: seq<Member>, good: set<string>, wrong: set<string>) {
    && (forall r | r in good :: r in o.game && Matches(Get(now, r), o.game[r].key))
    && (forall r | r in wrong :: r in o.game && !Matches(Get(now, r), o.game[r].key))
  }

  ghost predicate Steady(o: Start, now: seq<Member>, rej: seq<Member>, todo: set<string>, good: set<string>, wrong: set<string>, books: Books) {
    && DistinctNames(now)
    && Framed(o, now, rej, books) == true && InReject(o, rej, books) == true && Vanished(o, now, books) == true
    && Settled(o, now, good, wrong)
    && (good + wrong) !! todo && Touched(books) !! todo
    && Copied(o, books.copies)
  }

  /** What holds after every step; behind a quantifier, so that the loops only pass it on. */
  ghost predicate Standing(o: Start, now: seq<Member>, rej: seq<Member>, todo: set<string>, good: set<string>, wrong: set<string>, books: Books) {
    forall k {:trigger StandingAsked(k)} :: StandingAsked(k) ==>
      Steady(o, now, rej, todo, good, wrong, books) && Balanced(o, now, rej, books)
  }

  predicate StandingAsked(k: int) { true }

  /** A rom that is still to do is ready to be looked for. */
  lemma StandingReady(o: Start, now: seq<Member>, rej: seq<Member>, todo: set<string>, good: set<string>, wrong: set<string>, books: Books,
                      name: string, unknown: map<string, Key>)
    requires Standing(o, now, rej, todo, good, wrong, books) == true && name in todo && unknown.Keys <= todo && name !in unknown
    requires name in o.game && !Matches(Get(o.ms, name), o.game[name].key)
    requires forall u | u in unknown :: Matches(Get(o.ms, u), unknown[u])
    ensures Ready(now, name, o.game[name].key, unknown)
  {
    assert StandingAsked(0);
    FramedAt(o, now, rej, books, name);
    forall u | u in unknown
      ensures Matches(Get(now, u), unknown[u])
    {
      FramedAt(o, now, rej, books, u);
    }
  }

  // ----- the books

  lemma TakenFirst(ms: seq<Member>, names: set<string>)
    requires ms != []
    ensures Bag(Taken(ms, names)) == if ms[0].name in names then multiset{ms[0].content} + Bag(Taken(ms[1..], names - {ms[0].name}))
                                     else Bag(Taken(ms[1..], names))
  {
    BagCons(ms[0], Taken(ms[1..], names - {ms[0].name}));
  }

  lemma BagAtFirst(ms: seq<Member>, n: string)
    requires ms != []
    ensures BagAt(ms, n) == if ms[0].name == n then multiset{ms[0].content} else BagAt(ms[1..], n)
  {
  }

  /** One more name takes exactly the first member of that name. */
  lemma {:induction false} TakenNext(ms: seq<Member>, names: set<string>, n: string)
    requires n !in names
    ensures Bag(Taken(ms, names + {n})) == Bag(Taken(ms, names)) + BagAt(ms, n)
    decreases |ms|
  {
    if ms != [] {
      var m := ms[0].name;
      TakenFirst(ms, names);
      TakenFirst(ms, names + {n});
      BagAtFirst(ms, n);
      if m == n {
        assert names + {n} - {m} == names;
      } else {
        assert names + {n} - {m} == names - {m} + {n};
        TakenNext(ms[1..], if m in names then names - {m} else names, n);
      }
    }
  }

  /** Each of the names takes at most one member, and one if there is one. */
  lemma {:induction false} TakenCount(ms: seq<Member>, names: set<string>)
    ensures |Taken(ms, names)| == |set n | n in names && HasName(ms, n)|
    decreases |ms|
  {
    var found := set n | n in names && HasName(ms, n);
    if ms == [] {
      assert found == {};
    } else {
      var m := ms[0].name;
      var rest := names - {m};
      TakenCount(ms[1..], rest);
      assert found - {m} == set n | n in rest && HasName(ms[1..], n);
      assert m in names <==> m in found;
      if m !in names {
        assert rest == names;
      }
    }
  }

  lemma {:induction false} TakenIn(ms: seq<Member>, names: set<string>, more: set<string>)
    requires names <= more
    ensures Bag(Taken(ms, names)) <= Bag(Taken(ms, more)) <= Bag(ms)
    decreases |ms|
  {
    if ms != [] {
      var m := ms[0].name;
      TakenFirst(ms, names);
      TakenFirst(ms, more);
      BagCons(ms[0], ms[1..]);
      assert ms == [ms[0]] + ms[1..];
      if m in names {
        TakenIn(ms[1..], names - {m}, more - {m});
      } else if m in more {
        TakenIn(ms[1..], names, more - {m});
      } else {
        TakenIn(ms[1..], names, more);
      }
    }
  }

  /** A name that was not touched takes the same member from the zip as it is now. */
  lemma TakenNow(ms: seq<Member>, now: seq<Member>, names: set<string>, n: string)
    requires n !in names && Get(now, n) == Get(ms, n)
    ensures Bag(Taken(ms, names + {n})) == Bag(Taken(ms, names)) + BagAt(now, n)
  {
    TakenNext(ms, names, n);
  }

  /** The sum of the books after a step. */
  lemma SumNext(all: multiset<Content>, now: multiset<Content>, rest: multiset<Content>,
                next: multiset<Content>, less: multiset<Content>, c: multiset<Content>)
    requires all == now + rest && next + less == now + c
    ensures all + c == next + (rest + less)
  {
    assert all + c == (now + c) + rest;
    assert next + (rest + less) == (next + less) + rest;
  }

  /** One rom put in place, or not, and what the books say of it. */
  function Entered(books: Books, name: string, added: bool, gone: set<string>, c: multiset<Content>, moved: bool): Books {
    Books(books.copies + c, if moved then books.moved + {name} else books.moved, books.gone,
          if added then books.placed + {name} else books.placed, books.renamed + gone)
  }

  lemma BalancedNext(o: Start, now: seq<Member>, rej: seq<Member>, ns: seq<Member>, ts: seq<Member>, books: Books,
                     name: string, c: multiset<Content>, moved: bool, next: Books)
    requires Balanced(o, now, rej, books) && name !in books.moved && Get(rej, name) == Get(o.rs, name)
    requires Bag(ns) + Bag(ts) + (if moved then BagAt(rej, name) else multiset{}) == Bag(now) + Bag(rej) + c
    requires next.copies == books.copies + c && next.gone == books.gone
    requires next.moved == if moved then books.moved + {name} else books.moved
    ensures Balanced(o, ns, ts, next)
  {
    var less := if moved then BagAt(rej, name) else multiset{};
    var gone, lost := Bag(Taken(o.ms, books.gone)), Bag(Taken(o.rs, books.moved));
    if moved {
      TakenNow(o.rs, rej, books.moved, name);
    }
    var before := Bag(o.ms) + Bag(o.rs) + books.copies;
    assert before == (Bag(now) + Bag(rej)) + (gone + lost);
    SumNext(before, Bag(now) + Bag(rej), gone + lost, Bag(ns) + Bag(ts), less, c);
    assert before + c == Bag(o.ms) + Bag(o.rs) + (books.copies + c);
  }

  lemma CopiedNext(o: Start, now: seq<Member>, rej: seq<Member>, books: Books, c: multiset<Content>)
    requires Balanced(o, now, rej, books) && Copied(o, books.copies)
    requires forall d | d in c :: d in Bag(now) || d in Bag(rej) || d in o.pool
    ensures Copied(o, books.copies + c) == true
  {
    forall d | d in c
      ensures d in Bag(o.ms) || d in Bag(o.rs) || d in o.pool
    {
      if d !in o.pool {
        Sources(o, now, rej, books, d);
      }
    }
  }

  /** The names after one rom was put in place. */
  lemma FramedNext(o: Start, now: seq<Member>, rej: seq<Member>, ns: seq<Member>, ts: seq<Member>, books: Books,
                   name: string, gone: set<string>, c: multiset<Content>, moved: bool)
    requires Framed(o, now, rej, books) == true && Kept(now, rej, ns, ts, name, gone)
    ensures Framed(o, ns, ts, Entered(books, name, true, gone, c, moved)) == true
  {
    assert FramedAsked(0);
  }

  lemma InRejectNext(o: Start, rej: seq<Member>, ts: seq<Member>, books: Books, next: Books, name: string)
    requires InReject(o, rej, books) == true && KeepsOthers(rej, ts, name)
    requires next.moved <= books.moved + {name} && next.placed <= books.placed + {name}
    requires HasName(o.ms, name) ==> Member(name, Get(o.ms, name).value) in ts
    ensures InReject(o, ts, next) == true
  {
    assert InRejectAsked(0);
    forall n | (n in next.moved || n in next.placed) && HasName(o.ms, n)
      ensures Member(n, Get(o.ms, n).value) in ts
    {
      if n != name {
        assert Member(n, Get(o.ms, n).value) in rej;
      }
    }
  }

  lemma VanishedNext(o: Start, now: seq<Member>, ns: seq<Member>, books: Books, name: string, gone: set<string>, c: multiset<Content>, moved: bool)
    requires Vanished(o, now, books) == true && name !in Touched(books) && gone !! Touched(books) && name in o.game
    requires forall n :: n != name && n !in gone ==> Get(ns, n) == Get(now, n)
    requires forall n | n in gone :: Get(ns, n).None?
    requires Matches(Get(ns, name), o.game[name].key) && (moved ==> HasName(o.ms, name))
    ensures Vanished(o, ns, Entered(books, name, true, gone, c, moved)) == true
  {
    assert VanishedAsked(0);
  }

  /** All of that after one rom. */
  lemma StepsNext(o: Start, now: seq<Member>, rej: seq<Member>, ns: seq<Member>, ts: seq<Member>, books: Books,
                  name: string, key: Key, added: bool, gone: set<string>, c: multiset<Content>, moved: bool)
    requires Framed(o, now, rej, books) == true && InReject(o, rej, books) == true && Vanished(o, now, books) == true
    requires name !in Touched(books) && gone !! Touched(books) && name in o.game && key == o.game[name].key
    requires Outcome(now, rej, ns, ts, name, key, added, gone, c, moved) == true
    ensures var next := Entered(books, name, added, gone, c, moved);
            Framed(o, ns, ts, next) == true && InReject(o, ts, next) == true && Vanished(o, ns, next) == true
  {
    var next := Entered(books, name, added, gone, c, moved);
    FramedAt(o, now, rej, books, name);
    assert OutcomeAsked(0);
    if added {
      FramedNext(o, now, rej, ns, ts, books, name, gone, c, moved);
      InRejectNext(o, rej, ts, books, next, name);
      VanishedNext(o, now, ns, books, name, gone, c, moved);
    } else {
      assert next == books;
    }
  }

  /** One rom put in place, or not. */
  lemma StandingNext(o: Start, now: seq<Member>, rej: seq<Member>, ns: seq<Member>, ts: seq<Member>, todo: set<string>,
                     good: set<string>, wrong: set<string>, books: Books,
                     name: string, added: bool, gone: set<string>, c: multiset<Content>, moved: bool)
    requires Standing(o, now, rej, todo, good, wrong, books) == true && name in todo && gone <= todo && name in o.game
    requires !Matches(Get(o.ms, name), o.game[name].key)
    requires Outcome(now, rej, ns, ts, name, o.game[name].key, added, gone, c, moved) == true
    requires forall d | d in c :: d in Bag(now) || d in Bag(rej) || d in o.pool
    ensures Standing(o, ns, ts, todo - {name} - gone, if added then good + {name} else good,
                     if added then wrong else wrong + {name}, Entered(books, name, added, gone, c, moved)) == true
  {
    var left := todo - {name} - gone;
    var nowGood, nowWrong := if added then good + {name} else good, if added then wrong else wrong + {name};
    var next := Entered(books, name, added, gone, c, moved);
    assert name !in Touched(books) && gone !! Touched(books) && Touched(next) !! left && (nowGood + nowWrong) !! left by {
      assert StandingAsked(0);
    }
    assert Get(now, name) == Get(o.ms, name) && Get(rej, name) == Get(o.rs, name) by {
      assert StandingAsked(0);
      FramedAt(o, now, rej, books, name);
    }
    assert Balanced(o, ns, ts, next) == true by {
      assert StandingAsked(0) && OutcomeAsked(0);
      BalancedNext(o, now, rej, ns, ts, books, name, c, moved, next);
    }
    assert Copied(o, next.copies) == true by {
      assert StandingAsked(0);
      CopiedNext(o, now, rej, books, c);
    }
    assert Framed(o, ns, ts, next) == true && InReject(o, ts, next) == true && Vanished(o, ns, next) == true by {
      assert StandingAsked(0);
      StepsNext(o, now, rej, ns, ts, books, name, o.game[name].key, added, gone, c, moved);
    }
    assert DistinctNames(ns) && Settled(o, ns, nowGood, nowWrong) by {
      assert StandingAsked(0) && OutcomeAsked(0);
    }
  }

  /** Every content was in one of the zips at the start. */
  lemma Sources(o: Start, now: seq<Member>, rej: seq<Member>, books: Books, d: Content)
    requires Balanced(o, now, rej, books) && Copied(o, books.copies)
    requires d in Bag(now) || d in Bag(rej)
    ensures d in Bag(o.ms) || d in Bag(o.rs) || d in o.pool
  {
    assert (Bag(now) + Bag(rej) + Bag(Taken(o.ms, books.gone)) + Bag(Taken(o.rs, books.moved)))[d] > 0;
    assert (Bag(o.ms) + Bag(o.rs) + books.copies)[d] > 0;
  }

  /** No zip had a content with that key when the scan began, but for rejected members that
      the scan itself has overwritten. */
  ghost predicate Nowhere(o: Start, key: Key, moved: set<string>) {
    && !HasKey(o.ms, key) && NotIn(o.pool, key)
    && (forall d: Content | KeyOf(d) == key :: Bag(o.rs)[d] == Bag(Taken(o.rs, moved))[d])
  }

  lemma NowhereLater(o: Start, key: Key, moved: set<string>, more: set<string>)
    requires Nowhere(o, key, moved) && moved <= more
    ensures Nowhere(o, key, more)
  {
    TakenIn(o.rs, moved, more);
  }

  lemma NotInBag(ms: seq<Member>, key: Key, d: Content)
    requires !HasKey(ms, key) && KeyOf(d) == key
    ensures Bag(ms)[d] == 0
  {
    if d in Bag(ms) {
      var i := BagIn(ms, d);
      HasKeyAt(ms, key, i);
    }
  }

  lemma WasNowhere(o: Start, now: seq<Member>, rej: seq<Member>, todo: set<string>, good: set<string>, wrong: set<string>, books: Books, key: Key)
    requires Standing(o, now, rej, todo, good, wrong, books) == true && books.gone == {}
    requires !HasKey(now, key) && !HasKey(rej, key) && NotIn(o.pool, key) == true
    ensures Nowhere(o, key, books.moved)
  {
    assert StandingAsked(0);
    TakenNone(o.ms);
    TakenIn(o.rs, books.moved, books.moved);
    forall d: Content | KeyOf(d) == key
      ensures Bag(o.ms)[d] == 0 && Bag(o.rs)[d] == Bag(Taken(o.rs, books.moved))[d]
    {
      NotInBag(now, key, d);
      NotInBag(rej, key, d);
      assert (Bag(o.ms) + Bag(o.rs) + books.copies)[d] == (Bag(now) + Bag(rej) + Bag(Taken(o.ms, {})) + Bag(Taken(o.rs, books.moved)))[d];
    }
    if HasKey(o.ms, key) {
      InBag(o.ms, FirstKey(o.ms, key));
    }
  }

  lemma {:induction false} TakenNone(ms: seq<Member>)
    ensures Taken(ms, {}) == []
    decreases |ms|
  {
    if ms != [] {
      TakenNone(ms[1..]);
    }
  }

  /** Two objects that are changed, beside the archive. */
  ghost predicate Apart(z: ZipRom, reject: ZipRom, zar: ZipArchive)
    reads zar
  {
    z != reject && reject !in zar.zips
  }

  /** The state of a scan: `todo` are the names that were not touched, `good` and `wrong` the
      roms that are settled. */
  ghost predicate Going(o: Start, z: ZipRom, reject: ZipRom, zar: ZipArchive, todo: set<string>, good: set<string>, wrong: set<string>, books: Books)
    reads zar, zar.Others(z), z, reject
  {
    forall k {:trigger GoingAsked(k)} :: GoingAsked(k) ==>
      && Apart(z, reject, zar) && zar.CoveredBut(z) && z.Synced() && reject.Synced()
      && Standing(o, z.members, reject.members, todo, good, wrong, books) == true
      && o.pool == zar.Pool(z)
  }

  predicate GoingAsked(k: int) { true }

  /** One turn of the loops of `rom_scan` over the missing and the wrong roms. */
  method PlaceRom(fix: bool, z: ZipRom, reject: ZipRom, zar: ZipArchive, name: string, key: Key, unknown: map<string, Key>,
                  ghost o: Start, ghost todo: set<string>, ghost good: set<string>, ghost wrong: set<string>, ghost books: Books)
    returns (added: bool, rest: map<string, Key>, ghost gone: set<string>, ghost c: multiset<Content>, ghost moved: bool)
    requires Going(o, z, reject, zar, todo, good, wrong, books) == true && books.gone == {}
    requires name in todo && name in o.game && key == o.game[name].key && !Matches(Get(o.ms, name), key)
    requires unknown.Keys <= todo && name !in unknown && forall u | u in unknown :: Matches(Get(o.ms, u), unknown[u])
    modifies z`members, z`modified, reject`members, reject`modified
    ensures rest == unknown - gone && gone <= unknown.Keys && forall u | u in gone :: unknown[u] == key
    ensures Going(o, z, reject, zar, todo - {name} - gone, if added then good + {name} else good,
                  if added then wrong else wrong + {name}, Entered(books, name, added, gone, c, moved)) == true
    ensures added ==> fix && !z.readonly
    ensures moved ==> added && HasName(o.ms, name)
    ensures !added ==> z.members == old(z.members) && reject.members == old(reject.members) && c == multiset{} && rest == unknown && gone == {}
    ensures fix && !z.readonly && !added ==> Nowhere(o, key, books.moved) == true
  {
    assert GoingAsked(0);
    assert Ready(z.members, name, key, unknown) == true by {
      StandingReady(o, z.members, reject.members, todo, good, wrong, books, name, unknown);
    }
    var error;
    ghost var now, rej := z.members, reject.members;
    added, error, rest, gone, c, moved := RomScanAdd(fix, z, reject, zar, name, key, unknown);
    assert Standing(o, z.members, reject.members, todo - {name} - gone, if added then good + {name} else good,
                    if added then wrong else wrong + {name}, Entered(books, name, added, gone, c, moved)) == true by {
      StandingNext(o, now, rej, z.members, reject.members, todo, good, wrong, books, name, added, gone, c, moved);
    }
    assert moved ==> added && HasName(o.ms, name) by {
      MovedNames(o, now, rej, z.members, reject.members, todo, good, wrong, books, name, key, added, gone, c, moved);
    }
    assert fix && !z.readonly && !added ==> Nowhere(o, key, books.moved) == true by {
      if fix && !z.readonly && !added {
        WasNowhere(o, now, rej, todo, good, wrong, books, key);
      }
    }
  }

  lemma MovedNames(o: Start, now: seq<Member>, rej: seq<Member>, ns: seq<Member>, ts: seq<Member>, todo: set<string>,
                   good: set<string>, wrong: set<string>, books: Books,
                   name: string, key: Key, added: bool, gone: set<string>, c: multiset<Content>, moved: bool)
    requires Standing(o, now, rej, todo, good, wrong, books) == true && name in todo
    requires Outcome(now, rej, ns, ts, name, key, added, gone, c, moved) == true
    ensures moved ==> added && HasName(o.ms, name)
  {
    assert StandingAsked(0) && OutcomeAsked(0);
    FramedAt(o, now, rej, books, name);
  }

  /** The roms to place: still to do, and wrong so far. */
  ghost predicate Wanted(o: Start, wanted: map<string, Rom>, unknown: map<string, Key>, todo: set<string>) {
    && wanted.Keys <= todo && unknown.Keys <= todo && wanted.Keys !! unknown.Keys
    && (forall r | r in wanted :: r in o.game && wanted[r] == o.game[r] && !Matches(Get(o.ms, r), o.game[r].key))
    && (forall u | u in unknown :: Matches(Get(o.ms, u), unknown[u]))
  }

  /** The names that are still as they were, when only some of the wanted roms and of the
      unknown members were touched. */
  ghost predicate Remain(todo: set<string>, now: set<string>, wanted: map<string, Rom>, unknown: map<string, Key>, rest: map<string, Key>) {
    && (forall u | u in rest :: u in unknown && rest[u] == unknown[u])
    && (forall n | n in todo && n !in wanted && (n !in unknown || n in rest) :: n in now)
  }

  /** The roms that were wanted are in place, or left, or in `rest`. */
  ghost predicate Placed(wanted: map<string, Rom>, good: set<string>, left: map<string, Rom>, rest: map<string, Rom>, wrong: set<string>) {
    && (forall r | r in wanted :: r in good || r in left || r in rest)
    && (forall r | r in left :: r in wanted && left[r] == wanted[r] && r in wrong)
    && (forall r | r in rest :: r in wanted && rest[r] == wanted[r])
  }

  lemma WantedNext(o: Start, wanted: map<string, Rom>, unknown: map<string, Key>, todo: set<string>, name: string, gone: set<string>)
    requires Wanted(o, wanted, unknown, todo) && name in wanted && gone <= unknown.Keys
    ensures Wanted(o, wanted - {name}, unknown - gone, todo - {name} - gone)
  {
  }

  lemma RemainNext(todo: set<string>, now: set<string>, wanted: map<string, Rom>, unknown: map<string, Key>, rest: map<string, Key>,
                   name: string, gone: set<string>, roms: map<string, Rom>, good: set<string>, left: map<string, Rom>, wrong: set<string>)
    requires Remain(todo, now, wanted, unknown, rest) && Placed(wanted, good, left, roms, wrong)
    requires name in roms && gone <= rest.Keys
    ensures Remain(todo, now - {name} - gone, wanted, unknown, rest - gone)
    ensures Placed(wanted, good + {name}, left, roms - {name}, wrong)
    ensures Placed(wanted, good, left[name := roms[name]], roms - {name}, wrong + {name})
  {
  }

  /** The roms whose names were moved to the reject zip meanwhile are in place now. */
  ghost predicate MovedRoms(o: Start, before: set<string>, now: set<string>, wanted: map<string, Rom>, good: set<string>) {
    before <= now && forall n | n in now && n !in before :: n in wanted && n in good && HasName(o.ms, n)
  }

  /** The books and the results of the placing: the roms that are newly good are those that were
      put in place, and the unknown members that are not left are those that were renamed. */
  ghost predicate NamesPlaced(books: Books, now: Books, wanted: map<string, Rom>, unknown: map<string, Key>, rest: map<string, Key>,
                              equal: set<string>, good: set<string>)
  {
    && books.placed <= now.placed <= books.placed + wanted.Keys && good == equal + (now.placed - books.placed)
    && rest.Keys <= unknown.Keys && now.renamed == books.renamed + (unknown.Keys - rest.Keys)
  }

  lemma NamesNext(books: Books, now: Books, wanted: map<string, Rom>, unknown: map<string, Key>, rest: map<string, Key>,
                  equal: set<string>, good: set<string>, name: string, added: bool, gone: set<string>, c: multiset<Content>, moved: bool)
    requires NamesPlaced(books, now, wanted, unknown, rest, equal, good) && name in wanted && name !in books.placed && gone <= rest.Keys
    ensures NamesPlaced(books, Entered(now, name, added, gone, c, moved), wanted, unknown, rest - gone, equal, if added then good + {name} else good) == true
  {
  }

  predicate Wants(wanted: map<string, Rom>, key: Key) { exists r :: r in wanted && wanted[r].key == key }

  /** The unknown members that are left are all but some with the key of a wanted rom. */
  predicate Spared(wanted: map<string, Rom>, unknown: map<string, Key>, rest: map<string, Key>) {
    forall u | u in unknown && u !in rest :: Wants(wanted, unknown[u])
  }

  /** How far the placing of the wanted roms has come; `roms` are still to place. */
  ghost predicate Placing(o: Start, wanted: map<string, Rom>, unknown: map<string, Key>, equal: set<string>, todo: set<string>,
                          wrong: set<string>, books: Books, roms: map<string, Rom>, at: Place, active: bool)
  {
    forall k {:trigger PlacingAsked(k, at)} :: PlacingAsked(k, at) ==>
      && Wanted(o, roms, at.rest, at.todo) && at.books.gone == {}
      && Remain(todo, at.todo, wanted, unknown, at.rest) && Placed(wanted, at.good, at.left, roms, at.wrong)
      && equal <= at.good && wrong <= at.wrong
      && MovedRoms(o, books.moved, at.books.moved, wanted, at.good) && Spared(wanted, unknown, at.rest)
      && NamesPlaced(books, at.books, wanted, unknown, at.rest, equal, at.good)
      && (active ==> AllNowhere(o, at.left, at.books.moved))
      && (!active ==> at.books == books && at.rest == unknown)
  }

  predicate PlacingAsked(k: int, at: Place) { true }

  /** The roms that were left, the unknown members that were left, the good and the wrong
      roms, the names not touched, and the books. */
  datatype Place = Place(left: map<string, Rom>, rest: map<string, Key>, good: set<string>, todo: set<string>, wrong: set<string>, books: Books)

  ghost predicate AllNowhere(o: Start, left: map<string, Rom>, moved: set<string>) {
    forall r | r in left :: Nowhere(o, left[r].key, moved)
  }

  /** After one more rom. */
  function PlacedOne(at: Place, name: string, rom: Rom, added: bool, rest: map<string, Key>, gone: set<string>, c: multiset<Content>, moved: bool): Place {
    Place(if added then at.left else at.left[name := rom], rest, if added then at.good + {name} else at.good, at.todo - {name} - gone,
          if added then at.wrong else at.wrong + {name}, Entered(at.books, name, added, gone, c, moved))
  }

  lemma PlacingNext(o: Start, wanted: map<string, Rom>, unknown: map<string, Key>, equal: set<string>, todo: set<string>,
                    wrong: set<string>, books: Books, roms: map<string, Rom>, at: Place, active: bool,
                    name: string, added: bool, gone: set<string>, c: multiset<Content>, moved: bool)
    requires Placing(o, wanted, unknown, equal, todo, wrong, books, roms, at, active) == true && name in roms
    requires gone <= at.rest.Keys && (forall u | u in gone :: at.rest[u] == roms[name].key) && name !in books.placed
    requires (added ==> active) && (moved ==> added && HasName(o.ms, name)) && (!added ==> c == multiset{} && gone == {})
    requires active && !added ==> Nowhere(o, roms[name].key, at.books.moved) == true
    ensures Placing(o, wanted, unknown, equal, todo, wrong, books, roms - {name},
                    PlacedOne(at, name, roms[name], added, at.rest - gone, gone, c, moved), active) == true
  {
    assert PlacingAsked(0, at);
    var next := PlacedOne(at, name, roms[name], added, at.rest - gone, gone, c, moved);
    assert Wanted(o, roms - {name}, next.rest, next.todo) by {
      WantedNext(o, roms, at.rest, at.todo, name, gone);
    }
    assert Remain(todo, next.todo, wanted, unknown, next.rest) && Placed(wanted, next.good, next.left, roms - {name}, next.wrong) by {
      RemainNext(todo, at.todo, wanted, unknown, at.rest, name, gone, roms, at.good, at.left, at.wrong);
    }
    assert MovedRoms(o, books.moved, next.books.moved, wanted, next.good) && Spared(wanted, unknown, next.rest) by {
      MovedNext(o, books.moved, at.books, wanted, unknown, at.good, at.rest, gone, roms, name, c, added, moved);
    }
    assert NamesPlaced(books, next.books, wanted, unknown, next.rest, equal, next.good) by {
      NamesNext(books, at.books, wanted, unknown, at.rest, equal, at.good, name, added, gone, c, moved);
    }
    assert active ==> AllNowhere(o, next.left, next.books.moved) by {
      LeftNext(o, active, at.left, at.books, name, roms[name], gone, c, added, moved);
    }
  }

  /** The loops of `rom_scan` over the missing and the wrong roms, in any order: the roms
      that are left, and the unknown members that are left. */
  method PlaceRoms(fix: bool, z: ZipRom, reject: ZipRom, zar: ZipArchive, wanted: map<string, Rom>, unknown: map<string, Key>,
                   equal: set<string>, ghost o: Start, ghost todo: set<string>, ghost wrong: set<string>, ghost books: Books)
    returns (left: map<string, Rom>, rest: map<string, Key>, good: set<string>,
             ghost nowTodo: set<string>, ghost nowWrong: set<string>, ghost now: Books)
    requires Going(o, z, reject, zar, todo, equal, wrong, books) == true && Wanted(o, wanted, unknown, todo) == true && books.gone == {} && books.placed !! wanted.Keys
    modifies z`members, z`modified, reject`members, reject`modified
    ensures Going(o, z, reject, zar, nowTodo, good, nowWrong, now) == true
    ensures Placing(o, wanted, unknown, equal, todo, wrong, books, map[], Place(left, rest, good, nowTodo, nowWrong, now), fix && !z.readonly) == true
    ensures !fix || z.readonly ==> z.members == old(z.members) && reject.members == old(reject.members)
  {
    var roms := wanted;
    left, rest, good, nowTodo, nowWrong, now := map[], unknown, equal, todo, wrong, books;
    while roms != map[]
      invariant Going(o, z, reject, zar, nowTodo, good, nowWrong, now) == true
      invariant Placing(o, wanted, unknown, equal, todo, wrong, books, roms, Place(left, rest, good, nowTodo, nowWrong, now), fix && !z.readonly) == true
      invariant !fix || z.readonly ==> z.members == old(z.members) && reject.members == old(reject.members)
      decreases roms.Keys
    {
      var name :| name in roms.Keys;
      var added;
      ghost var gone, before, c, moved := {}, Place(left, rest, good, nowTodo, nowWrong, now), multiset{}, false;
      PlacingFirst(o, wanted, unknown, equal, todo, wrong, books, roms, before, fix && !z.readonly, name);
      added, rest, gone, c, moved := PlaceRom(fix, z, reject, zar, name, roms[name].key, rest, o, nowTodo, good, nowWrong, now);
      PlacingNext(o, wanted, unknown, equal, todo, wrong, books, roms, before, fix && !z.readonly, name, added, gone, c, moved);
      if added {
        good := good + {name};
      } else {
        left := left[name := roms[name]];
        nowWrong := nowWrong + {name};
      }
      now := Entered(now, name, added, gone, c, moved);
      nowTodo := nowTodo - {name} - gone;
      roms := roms - {name};
    }
  }

  /** A rom that is still to place. */
  lemma PlacingFirst(o: Start, wanted: map<string, Rom>, unknown: map<string, Key>, equal: set<string>, todo: set<string>,
                     wrong: set<string>, books: Books, roms: map<string, Rom>, at: Place, active: bool, name: string)
    requires Placing(o, wanted, unknown, equal, todo, wrong, books, roms, at, active) == true && name in roms
    ensures at.books.gone == {} && name in at.todo && name in o.game && roms[name].key == o.game[name].key && !Matches(Get(o.ms, name), roms[name].key)
    ensures name in wanted
    ensures at.rest.Keys <= at.todo && name !in at.rest && forall u | u in at.rest :: Matches(Get(o.ms, u), at.rest[u])
  {
    assert PlacingAsked(0, at);
  }

  lemma MovedNext(o: Start, start: set<string>, books: Books, wanted: map<string, Rom>, unknown: map<string, Key>, good: set<string>,
                  rest: map<string, Key>, gone: set<string>, roms: map<string, Rom>, name: string, c: multiset<Content>, added: bool, moved: bool)
    requires MovedRoms(o, start, books.moved, wanted, good) && Spared(wanted, unknown, rest)
    requires name in roms && name in wanted && roms[name] == wanted[name] && gone <= rest.Keys
    requires (forall u | u in gone :: rest[u] == roms[name].key) && (forall u | u in rest :: u in unknown && rest[u] == unknown[u])
    requires moved ==> added && HasName(o.ms, name)
    ensures MovedRoms(o, start, Entered(books, name, added, gone, c, moved).moved, wanted, if added then good + {name} else good) == true
    ensures Spared(wanted, unknown, rest - gone) == true
  {
    forall u | u in unknown && u !in rest - gone
      ensures Wants(wanted, unknown[u])
    {
      if u in gone {
        assert wanted[name].key == unknown[u];
      }
    }
  }

  lemma LeftNext(o: Start, active: bool, left: map<string, Rom>, books: Books, name: string, rom: Rom, gone: set<string>, c: multiset<Content>, added: bool, moved: bool)
    requires active ==> AllNowhere(o, left, books.moved)
    requires active && !added ==> Nowhere(o, rom.key, books.moved)
    requires moved ==> added
    ensures active ==> AllNowhere(o, if added then left else left[name := rom], Entered(books, name, added, gone, c, moved).moved)
  {
    if active {
      AllNowhereLater(o, left, books.moved, Entered(books, name, added, gone, c, moved).moved);
    }
  }

  lemma AllNowhereLater(o: Start, left: map<string, Rom>, moved: set<string>, more: set<string>)
    requires AllNowhere(o, left, moved) && moved <= more
    ensures AllNowhere(o, left, more)
  {
    forall r | r in left
      ensures Nowhere(o, left[r].key, more)
    {
      NowhereLater(o, left[r].key, moved, more);
    }
  }

  // ----- unknown members, which are moved away

  ghost predicate AllIn(names: set<string>, ms: seq<Member>) { forall n | n in names :: HasName(ms, n) }

  /** One unknown member. */
  method MoveOne(z: ZipRom, reject: ZipRom, zar: ZipArchive, name: string, ghost names: set<string>,
                 ghost o: Start, ghost todo: set<string>, ghost good: set<string>, ghost wrong: set<string>, ghost books: Books)
    requires Going(o, z, reject, zar, todo, good, wrong, books) == true && name in todo && name in names && AllIn(names, o.ms) == true
    modifies z`members, z`modified, reject`members, reject`modified
    ensures Going(o, z, reject, zar, todo - {name}, good, wrong, books.(moved := books.moved + {name})) == true
  {
    assert GoingAsked(0);
    StandingMoved(o, z.members, reject.members, todo, good, wrong, books, name, names);
    z.RemoveTo(name, reject);
  }

  /** The loops that move the unknown binary and text members to the reject zip: all of them
      are moved, and each overwrites its namesake there. */
  method MoveAway(active: bool, z: ZipRom, reject: ZipRom, zar: ZipArchive, names: set<string>,
                  ghost o: Start, ghost todo: set<string>, ghost good: set<string>, ghost wrong: set<string>, ghost books: Books)
    returns (ghost nowTodo: set<string>, ghost now: Books)
    requires Going(o, z, reject, zar, todo, good, wrong, books) == true && names <= todo && AllIn(names, o.ms) == true
    modifies z`members, z`modified, reject`members, reject`modified
    ensures Going(o, z, reject, zar, nowTodo, good, wrong, now) == true
    ensures active && !z.readonly ==> nowTodo == todo - names && now == books.(moved := books.moved + names)
    ensures !active || z.readonly ==> nowTodo == todo && now == books
    ensures !active || z.readonly ==> z.members == old(z.members) && reject.members == old(reject.members)
  {
    var rest := names;
    ghost var done: set<string> := {};
    assert todo - done == todo && books.moved + done == books.moved;
    while rest != {}
      invariant Going(o, z, reject, zar, todo - done, good, wrong, books.(moved := books.moved + done)) == true
      invariant rest <= names && rest !! done && done <= names
      invariant if active && !z.readonly then names == done + rest else done == {}
      invariant !active || z.readonly ==> z.members == old(z.members) && reject.members == old(reject.members)
      decreases rest
    {
      var name :| name in rest;
      if active && !z.readonly {
        MoveOne(z, reject, zar, name, names, o, todo - done, good, wrong, books.(moved := books.moved + done));
        OneMore(todo, books.moved, done, name);
        done := done + {name};
      }
      rest := rest - {name};
    }
    nowTodo, now := todo - done, books.(moved := books.moved + done);
  }

  lemma OneMore(todo: set<string>, moved: set<string>, done: set<string>, name: string)
    ensures todo - done - {name} == todo - (done + {name})
    ensures moved + done + {name} == moved + (done + {name})
  {
  }

  lemma StandingMoved(o: Start, now: seq<Member>, rej: seq<Member>, todo: set<string>, good: set<string>, wrong: set<string>, books: Books,
                      name: string, names: set<string>)
    requires Standing(o, now, rej, todo, good, wrong, books) == true && name in todo && name in names && AllIn(names, o.ms) == true
    ensures Standing(o, RemoveName(now, name), Rejected(now, rej, name), todo - {name}, good, wrong, books.(moved := books.moved + {name})) == true
  {
    var ns, ts, next := RemoveName(now, name), Rejected(now, rej, name), books.(moved := books.moved + {name});
    assert DistinctNames(now) && name !in Touched(books) && Get(rej, name) == Get(o.rs, name) && HasName(now, name) && HasName(o.ms, name)
      && Get(now, name) == Get(o.ms, name) by {
      assert StandingAsked(0);
      assert AllIn(names, o.ms);
      FramedAt(o, now, rej, books, name);
    }
    assert Balanced(o, ns, ts, next) == true by {
      assert StandingAsked(0);
      RemoveExactly(now, rej, name);
      BalancedNext(o, now, rej, ns, ts, books, name, multiset{}, true, next);
    }
    MoveEffect(now, rej, name);
    assert Framed(o, ns, ts, next) == true && InReject(o, ts, next) == true && Vanished(o, ns, next) == true by {
      assert StandingAsked(0);
      RejectedKeeps(now, rej, name);
      StepsMoved(o, now, rej, ns, ts, books, name);
    }
    assert Steady(o, ns, ts, todo - {name}, good, wrong, next) by {
      assert StandingAsked(0);
    }
  }

  lemma StepsMoved(o: Start, now: seq<Member>, rej: seq<Member>, ns: seq<Member>, ts: seq<Member>, books: Books, name: string)
    requires Framed(o, now, rej, books) == true && InReject(o, rej, books) == true && Vanished(o, now, books) == true
    requires name !in Touched(books) && HasName(o.ms, name)
    requires (forall n :: Get(ns, n) == if n == name then None else Get(now, n)) && KeepsOthers(rej, ts, name)
    requires Member(name, Get(o.ms, name).value) in ts
    ensures var next := books.(moved := books.moved + {name});
            Framed(o, ns, ts, next) == true && InReject(o, ts, next) == true && Vanished(o, ns, next) == true
  {
    InRejectNext(o, rej, ts, books, books.(moved := books.moved + {name}), name);
    assert FramedAsked(0) && VanishedAsked(0);
  }

  // ----- garbage, which is deleted

  lemma RemoveEffect(ms: seq<Member>, name: string)
    requires DistinctNames(ms)
    ensures DistinctNames(RemoveName(ms, name))
    ensures forall n :: Get(RemoveName(ms, name), n) == if n == name then None else Get(ms, n)
  {
    MoveEffect(ms, [], name);
  }

  lemma BalancedLess(o: Start, now: seq<Member>, rej: seq<Member>, books: Books, name: string)
    requires Balanced(o, now, rej, books) && name !in books.gone && Get(now, name) == Get(o.ms, name)
    ensures Balanced(o, RemoveName(now, name), rej, books.(gone := books.gone + {name}))
  {
    var ns := RemoveName(now, name);
    var gone, lost := Bag(Taken(o.ms, books.gone)), Bag(Taken(o.rs, books.moved));
    TakenNow(o.ms, now, books.gone, name);
    RemoveBag(now, name);
    SumNext(Bag(now) + (Bag(rej) + gone + lost), Bag(now), Bag(rej) + gone + lost, Bag(ns), BagAt(now, name), multiset{});
  }

  lemma StandingLess(o: Start, now: seq<Member>, rej: seq<Member>, todo: set<string>, good: set<string>, wrong: set<string>, books: Books, name: string)
    requires Standing(o, now, rej, todo, good, wrong, books) == true && name in todo
    ensures Standing(o, RemoveName(now, name), rej, todo - {name}, good, wrong, books.(gone := books.gone + {name})) == true
  {
    var ns, next := RemoveName(now, name), books.(gone := books.gone + {name});
    assert DistinctNames(now) && name !in Touched(books) && Get(now, name) == Get(o.ms, name) by {
      assert StandingAsked(0);
      FramedAt(o, now, rej, books, name);
    }
    assert Balanced(o, ns, rej, next) by {
      assert StandingAsked(0);
      BalancedLess(o, now, rej, books, name);
    }
    RemoveEffect(now, name);
    assert Framed(o, ns, rej, next) == true && InReject(o, rej, next) == true && Vanished(o, ns, next) == true by {
      assert StandingAsked(0);
      assert FramedAsked(0) && InRejectAsked(0) && VanishedAsked(0);
    }
    assert Steady(o, ns, rej, todo - {name}, good, wrong, next) by {
      assert StandingAsked(0);
    }
  }

  /** The loop that deletes the members classed as garbage: these, and no others. */
  method DeleteGarbage(active: bool, z: ZipRom, names: set<string>, ghost rej: seq<Member>,
                       ghost o: Start, ghost todo: set<string>, ghost good: set<string>, ghost wrong: set<string>, ghost books: Books)
    returns (ghost now: Books)
    requires Standing(o, z.members, rej, todo, good, wrong, books) == true && names <= todo && z.Synced()
    modifies z`members, z`modified
    ensures Standing(o, z.members, rej, {}, good, wrong, now) == true && z.Synced()
    ensures active && !z.readonly ==> now == books.(gone := books.gone + names)
    ensures !active || z.readonly ==> now == books
    ensures !active || z.readonly ==> z.members == old(z.members)
  {
    var rest := names;
    ghost var left, done: set<string> := todo, {};
    now := books;
    while rest != {}
      invariant Standing(o, z.members, rej, left, good, wrong, now) == true && z.Synced()
      invariant rest <= names && rest <= left && done == if active && !z.readonly then names - rest else {}
      invariant now == books.(gone := books.gone + done)
      invariant !active || z.readonly ==> z.members == old(z.members)
      decreases rest
    {
      var name :| name in rest;
      if active && !z.readonly {
        StandingLess(o, z.members, rej, left, good, wrong, now, name);
        z.Remove(name);
        now, left, done := now.(gone := now.gone + {name}), left - {name}, done + {name};
      }
      rest := rest - {name};
    }
    StandingFewer(o, z.members, rej, left, {}, good, wrong, now);
  }

  lemma StandingFewer(o: Start, now: seq<Member>, rej: seq<Member>, todo: set<string>, less: set<string>, good: set<string>,
                      wrong: set<string>, books: Books)
    requires Standing(o, now, rej, todo, good, wrong, books) && less <= todo
    ensures Standing(o, now, rej, less, good, wrong, books) == true
  {
    assert StandingAsked(0);
  }

  // ----- the whole scan

  /** The operations that are switched on. */
  datatype Operation = Operation(fix: bool, removeBinary: bool, removeText: bool, removeGarbage: bool)

  /** The names a scan may touch. */
  function Names(st: Stat): set<string> {
    st.miss.Keys + st.bad.Keys + st.binary.Keys + st.text.Keys + st.garbage.Keys
  }

  /** A member that is no rom of the game, of this kind. */
  predicate Unknown(o: Start, ana: Analyze, n: string, kind: Kind) {
    Get(o.ms, n).Some? && n !in o.game && ana(n, KeyOf(Get(o.ms, n).value)) == kind
  }

  /** A rom that is to be found, because it is missing or wrong in the zip. */
  predicate ToFind(o: Start, r: string) {
    r in o.game && !o.game[r].nodump && !Matches(Get(o.ms, r), o.game[r].key)
  }

  /** The roms in a status, by what they mean. */
  ghost predicate RomSets(st: Stat, o: Start) {
    && (forall n :: n in st.miss <==> ToFind(o, n) && Get(o.ms, n).None?)
    && (forall n :: n in st.bad <==> ToFind(o, n) && Get(o.ms, n).Some?)
    && (forall n | n in st.miss :: st.miss[n] == o.game[n])
    && (forall n | n in st.bad :: st.bad[n] == o.game[n])
    && (forall n :: n in st.equal <==> n in o.game && !o.game[n].nodump && Matches(Get(o.ms, n), o.game[n].key))
  }

  /** And the unknown members. */
  ghost predicate UnknownSets(st: Stat, o: Start, ana: Analyze) {
    && (forall n :: n in st.binary <==> Unknown(o, ana, n, Binary))
    && (forall n | n in st.binary :: st.binary[n] == KeyOf(Get(o.ms, n).value))
    && (forall n :: n in st.text <==> Unknown(o, ana, n, Text))
    && (forall n :: n in st.garbage <==> Unknown(o, ana, n, Garbage))
  }

  lemma RomsMean(st: Stat, o: Start, ana: Analyze)
    requires Status(st, o.ms, o.game, ana)
    ensures RomSets(st, o) == true
  {
    KnownMean(st.equal, st.bad, o);
    assert forall n :: HasName(o.ms, n) == Get(o.ms, n).Some?;
  }

  lemma KnownMean(equal: set<string>, bad: map<string, Rom>, o: Start)
    requires Known(equal, bad, PositionsOf(o.ms), ContentsOf(o.ms), |o.ms|, o.game)
    ensures forall n :: n in equal <==> n in o.game && !o.game[n].nodump && Matches(Get(o.ms, n), o.game[n].key)
    ensures forall n :: n in bad <==> ToFind(o, n) && Get(o.ms, n).Some?
    ensures forall n | n in bad :: bad[n] == o.game[n]
  {
    var get, at := ContentsOf(o.ms), PositionsOf(o.ms);
    forall n
      ensures get(n) == Get(o.ms, n) && at(n) == FirstAt(o.ms, n) && HasName(o.ms, n) == Get(o.ms, n).Some?
    {
    }
  }

  lemma UnknownsMean(st: Stat, o: Start, ana: Analyze)
    requires Status(st, o.ms, o.game, ana)
    ensures UnknownSets(st, o, ana) == true
  {
    var get, at := ContentsOf(o.ms), PositionsOf(o.ms);
    UnknownMeans(st.binary, o, ana, Binary);
    UnknownMeans(st.text, o, ana, Text);
    UnknownMeans(st.garbage, o, ana, Garbage);
  }

  lemma UnknownMeans(found: map<string, Key>, o: Start, ana: Analyze, kind: Kind)
    requires Unknowns(found, PositionsOf(o.ms), ContentsOf(o.ms), |o.ms|, o.game, ana, kind)
    ensures forall n :: n in found <==> Unknown(o, ana, n, kind)
    ensures forall n | n in found :: found[n] == KeyOf(Get(o.ms, n).value)
  {
    var get, at := ContentsOf(o.ms), PositionsOf(o.ms);
    forall n
      ensures get(n) == Get(o.ms, n) && at(n) == FirstAt(o.ms, n) && HasName(o.ms, n) == Get(o.ms, n).Some?
    {
    }
  }

  /** The start of a scan, from the status of the zip. */
  lemma Begin(o: Start, ana: Analyze, st: Stat)
    requires DistinctNames(o.ms) && RomSets(st, o) && UnknownSets(st, o, ana)
    ensures Standing(o, o.ms, o.rs, Names(st), st.equal, {}, NoBooks()) == true
  {
    var none := NoBooks();
    assert Balanced(o, o.ms, o.rs, none) by {
      TakenNone(o.ms);
      TakenNone(o.rs);
    }
    assert Framed(o, o.ms, o.rs, none) == true && InReject(o, o.rs, none) == true && Vanished(o, o.ms, none) == true;
    assert st.equal !! Names(st);
    assert Steady(o, o.ms, o.rs, Names(st), st.equal, {}, none);
  }

  lemma BeginWanted(o: Start, ana: Analyze, st: Stat)
    requires RomSets(st, o) && UnknownSets(st, o, ana)
    ensures Wanted(o, st.miss, st.binary, Names(st)) == true
  {
  }

  /** The roms that are not recorded as good are exactly those that are missing or wrong. */
  ghost predicate Complete(ms: seq<Member>, game: map<string, Rom>) {
    forall r | r in game && !game[r].nodump :: Matches(Get(ms, r), game[r].key)
  }

  /** The roms that are not in place after the placing. */
  ghost predicate Outstanding(o: Start, st: Stat, good: set<string>, wrong: set<string>, left: map<string, Rom>, bad: map<string, Rom>,
                              active: bool, moved: set<string>)
  {
    && st.equal <= good && (forall r | r in st.miss :: r in good || r in left) && (forall r | r in st.bad :: r in good || r in bad)
    && (forall r | r in left || r in bad :: r in wrong && (r in st.miss || r in st.bad))
    && (active ==> forall r | r in left || r in bad :: r in o.game && Nowhere(o, o.game[r].key, moved))
  }

  lemma OutstandingLater(o: Start, st: Stat, good: set<string>, wrong: set<string>, left: map<string, Rom>, bad: map<string, Rom>,
                         active: bool, moved: set<string>, more: set<string>)
    requires Outstanding(o, st, good, wrong, left, bad, active, moved) == true && moved <= more
    ensures Outstanding(o, st, good, wrong, left, bad, active, more) == true
  {
    forall r | (r in left || r in bad) && active
      ensures Nowhere(o, o.game[r].key, more)
    {
      NowhereLater(o, o.game[r].key, moved, more);
    }
  }

  /** The books after the placing. */
  ghost predicate PlacedBooks(st: Stat, active: bool, good: set<string>, rest: map<string, Key>, books: Books) {
    && books.gone == {}
    && (forall n | n in books.moved :: active && n in st.bad && n in good)
    && (forall r | r in books.placed :: active && (r in st.miss || r in st.bad)) && good == st.equal + books.placed
    && books.renamed == st.binary.Keys - rest.Keys
    && rest.Keys <= st.binary.Keys
    && (forall u | u in st.binary && u !in rest :: active && (Wants(st.miss, st.binary[u]) || Wants(st.bad, st.binary[u])))
    && (!active ==> books.copies == multiset{})
  }

  /** The names that the steps after the placing work on. */
  ghost predicate Remaining(o: Start, st: Stat, rest: map<string, Key>, todo: set<string>) {
    && rest.Keys <= todo && st.text.Keys <= todo && st.garbage.Keys <= todo
    && rest.Keys !! st.text.Keys && rest.Keys !! st.garbage.Keys && st.text.Keys !! st.garbage.Keys
    && AllIn(rest.Keys, o.ms) && AllIn(st.text.Keys, o.ms)
  }

  /** What both rounds of placing come to. */
  lemma PlacedAll(o: Start, ana: Analyze, st: Stat, first: Place, last: Place, active: bool, none: Books)
    requires RomSets(st, o) && none == NoBooks()
    requires Placing(o, st.miss, st.binary, st.equal, Names(st), {}, none, map[], first, active) == true
    requires Placing(o, st.bad, first.rest, first.good, first.todo, first.wrong, first.books, map[], last, active) == true
    ensures Outstanding(o, st, last.good, last.wrong, first.left, last.left, active, last.books.moved) == true
  {
    assert PlacingAsked(0, first) && PlacingAsked(0, last);
    if active {
      AllNowhereLater(o, first.left, first.books.moved, last.books.moved);
    }
  }

  lemma NamesTwice(st: Stat, first: Place, last: Place)
    requires NamesPlaced(NoBooks(), first.books, st.miss, st.binary, first.rest, st.equal, first.good)
    requires NamesPlaced(first.books, last.books, st.bad, first.rest, last.rest, first.good, last.good)
    ensures last.books.placed <= st.miss.Keys + st.bad.Keys && last.good == st.equal + last.books.placed
    ensures last.books.renamed == st.binary.Keys - last.rest.Keys && last.rest.Keys <= st.binary.Keys
  {
  }

  lemma SparedTwice(st: Stat, rest: map<string, Key>, last: map<string, Key>)
    requires Spared(st.miss, st.binary, rest) && Spared(st.bad, rest, last) && forall u | u in rest :: u in st.binary && rest[u] == st.binary[u]
    ensures forall u | u in st.binary && u !in last :: Wants(st.miss, st.binary[u]) || Wants(st.bad, st.binary[u])
  {
  }

  /** Missing roms have nothing to move. */
  lemma NoneMoved(o: Start, st: Stat, first: Place)
    requires RomSets(st, o) && MovedRoms(o, {}, first.books.moved, st.miss, first.good)
    ensures first.books.moved == {}
  {
    assert forall n :: HasName(o.ms, n) == Get(o.ms, n).Some?;
  }

  lemma PlacedAllBooks(o: Start, ana: Analyze, st: Stat, first: Place, last: Place, active: bool, none: Books)
    requires RomSets(st, o) == true && none == NoBooks()
    requires Placing(o, st.miss, st.binary, st.equal, Names(st), {}, none, map[], first, active) == true
    requires Placing(o, st.bad, first.rest, first.good, first.todo, first.wrong, first.books, map[], last, active) == true
    ensures PlacedBooks(st, active, last.good, last.rest, last.books) == true
  {
    assert !active ==> last.books == none && last.rest == st.binary by {
      assert PlacingAsked(0, first) && PlacingAsked(0, last);
    }
    assert first.books.moved == {} by {
      assert MovedRoms(o, {}, first.books.moved, st.miss, first.good) == true by {
        assert PlacingAsked(0, first);
      }
      NoneMoved(o, st, first);
    }
    assert MovedRoms(o, {}, last.books.moved, st.bad, last.good) && last.books.gone == {} by {
      assert PlacingAsked(0, last);
    }
    assert NamesPlaced(NoBooks(), first.books, st.miss, st.binary, first.rest, st.equal, first.good) == true && Spared(st.miss, st.binary, first.rest) == true
      && (forall u | u in first.rest :: u in st.binary && first.rest[u] == st.binary[u]) by {
      assert PlacingAsked(0, first);
    }
    assert NamesPlaced(first.books, last.books, st.bad, first.rest, last.rest, first.good, last.good) == true && Spared(st.bad, first.rest, last.rest) == true by {
      assert PlacingAsked(0, last);
    }
    NamesTwice(st, first, last);
    SparedTwice(st, first.rest, last.rest);
    BooksAre(o, st, last.good, last.rest, last.books, active);
  }

  lemma BooksAre(o: Start, st: Stat, good: set<string>, rest: map<string, Key>, books: Books, active: bool)
    requires !active ==> books == NoBooks() && rest == st.binary
    requires MovedRoms(o, {}, books.moved, st.bad, good) && books.gone == {}
    requires books.placed <= st.miss.Keys + st.bad.Keys && good == st.equal + books.placed
    requires books.renamed == st.binary.Keys - rest.Keys && rest.Keys <= st.binary.Keys
    requires forall u | u in st.binary && u !in rest :: Wants(st.miss, st.binary[u]) || Wants(st.bad, st.binary[u])
    ensures PlacedBooks(st, active, good, rest, books) == true
  {
  }

  /** After the missing roms the wrong ones are still to place. */
  lemma ThenBad(o: Start, ana: Analyze, st: Stat, first: Place, active: bool, none: Books)
    requires RomSets(st, o) == true && UnknownSets(st, o, ana) == true && none == NoBooks()
    requires Placing(o, st.miss, st.binary, st.equal, Names(st), {}, none, map[], first, active) == true
    ensures Wanted(o, st.bad, first.rest, first.todo) == true && first.books.gone == {} && first.books.placed !! st.bad.Keys
  {
    assert Wanted(o, map[], first.rest, first.todo) && Remain(Names(st), first.todo, st.miss, st.binary, first.rest)
      && first.books.gone == {} && first.books.placed <= st.miss.Keys by {
      assert PlacingAsked(0, first);
    }
    BadWanted(o, ana, st, first.todo, first.rest);
  }

  lemma BadWanted(o: Start, ana: Analyze, st: Stat, todo: set<string>, rest: map<string, Key>)
    requires RomSets(st, o) && UnknownSets(st, o, ana)
    requires Wanted(o, map[], rest, todo) && Remain(Names(st), todo, st.miss, st.binary, rest)
    ensures Wanted(o, st.bad, rest, todo) == true && st.miss.Keys !! st.bad.Keys
  {
  }

  lemma StillThere(o: Start, ana: Analyze, st: Stat, todo: set<string>, rest: map<string, Key>, now: set<string>, last: map<string, Key>)
    requires RomSets(st, o) && UnknownSets(st, o, ana)
    requires Remain(Names(st), todo, st.miss, st.binary, rest) && Remain(todo, now, st.bad, rest, last)
    ensures st.text.Keys <= now && st.garbage.Keys <= now && last.Keys <= st.binary.Keys
  {
    forall n | n in st.text || n in st.garbage
      ensures n in now
    {
      assert n in Names(st) && n !in st.miss && n !in st.bad && n !in st.binary;
    }
  }

  /** And after these, the unknown members. */
  lemma ThenUnknown(o: Start, ana: Analyze, st: Stat, first: Place, last: Place, active: bool, none: Books)
    requires RomSets(st, o) && UnknownSets(st, o, ana)
    requires Placing(o, st.miss, st.binary, st.equal, Names(st), {}, none, map[], first, active) == true
    requires Placing(o, st.bad, first.rest, first.good, first.todo, first.wrong, first.books, map[], last, active) == true
    ensures Remaining(o, st, last.rest, last.todo) == true
  {
    assert Remain(Names(st), first.todo, st.miss, st.binary, first.rest) && Remain(first.todo, last.todo, st.bad, first.rest, last.rest)
      && last.rest.Keys <= last.todo by {
      assert PlacingAsked(0, first) && PlacingAsked(0, last);
    }
    StillThere(o, ana, st, first.todo, first.rest, last.todo, last.rest);
    UnknownApart(o, ana, st, last.rest);
  }

  lemma UnknownApart(o: Start, ana: Analyze, st: Stat, rest: map<string, Key>)
    requires UnknownSets(st, o, ana) && rest.Keys <= st.binary.Keys
    ensures rest.Keys !! st.text.Keys && rest.Keys !! st.garbage.Keys && st.text.Keys !! st.garbage.Keys
    ensures AllIn(rest.Keys, o.ms) == true && AllIn(st.text.Keys, o.ms) == true
  {
    assert forall n :: HasName(o.ms, n) == Get(o.ms, n).Some?;
  }

  /** Placing the missing and then the wrong roms. */
  method PlaceAll(fix: bool, z: ZipRom, reject: ZipRom, zar: ZipArchive, st: Stat, ghost o: Start, ghost ana: Analyze)
    returns (left: map<string, Rom>, bad: map<string, Rom>, rest: map<string, Key>,
             ghost todo: set<string>, ghost good: set<string>, ghost wrong: set<string>, ghost books: Books)
    requires Apart(z, reject, zar) && zar.CoveredBut(z) && z.Synced() && reject.Synced()
    requires o.ms == z.members && o.rs == reject.members && o.pool == zar.Pool(z) && DistinctNames(o.ms)
    requires RomSets(st, o) == true && UnknownSets(st, o, ana) == true
    modifies z`members, z`modified, reject`members, reject`modified
    ensures Going(o, z, reject, zar, todo, good, wrong, books) == true
    ensures Remaining(o, st, rest, todo) == true && PlacedBooks(st, fix && !z.readonly, good, rest, books) == true
    ensures Outstanding(o, st, good, wrong, left, bad, fix && !z.readonly, books.moved) == true
    ensures !fix || z.readonly ==> z.members == old(z.members) && reject.members == old(reject.members)
  {
    Begin(o, ana, st);
    BeginWanted(o, ana, st);
    var equal, first;
    ghost var firstTodo, firstWrong, firstBooks;
    ghost var none := NoBooks();
    left, first, equal, firstTodo, firstWrong, firstBooks := PlaceRoms(fix, z, reject, zar, st.miss, st.binary, st.equal, o, Names(st), {}, none);
    ghost var one := Place(left, first, equal, firstTodo, firstWrong, firstBooks);
    ThenBad(o, ana, st, one, fix && !z.readonly, none);
    bad, rest, good, todo, wrong, books := PlaceRoms(fix, z, reject, zar, st.bad, first, equal, o, firstTodo, firstWrong, firstBooks);
    ghost var two := Place(bad, rest, good, todo, wrong, books);
    ThenUnknown(o, ana, st, one, two, fix && !z.readonly, none);
    PlacedAll(o, ana, st, one, two, fix && !z.readonly, none);
    PlacedAllBooks(o, ana, st, one, two, fix && !z.readonly, none);
  }

  /** What the roms that were left say of the zip. */
  lemma AllPlaced(o: Start, st: Stat, now: seq<Member>, good: set<string>, wrong: set<string>,
                  left: map<string, Rom>, bad: map<string, Rom>, active: bool, moved: set<string>)
    requires RomSets(st, o) && Settled(o, now, good, wrong) && Outstanding(o, st, good, wrong, left, bad, active, moved)
    ensures left == map[] && bad == map[] <==> Complete(now, o.game)
    ensures forall r | r in o.game && !o.game[r].nodump && Matches(Get(o.ms, r), o.game[r].key) :: Matches(Get(now, r), o.game[r].key)
    ensures active ==> forall r | r in o.game && !o.game[r].nodump && !Matches(Get(now, r), o.game[r].key) :: Nowhere(o, o.game[r].key, moved)
  {
    forall r | r in o.game && !o.game[r].nodump
      ensures r in st.miss || r in st.bad || r in st.equal
    {
      assert ToFind(o, r) || Matches(Get(o.ms, r), o.game[r].key);
    }
    if Complete(now, o.game) {
      assert forall r :: r !in left && r !in bad;
    }
  }

  /** What the books of a scan hold, by the status of the zip. */
  ghost predicate Entries(ops: Operation, writable: bool, st: Stat, good: set<string>, books: Books) {
    && books.gone == (if writable && ops.removeGarbage then st.garbage.Keys else {})
    && (forall n | n in books.moved :: writable && (
          || (ops.removeText && n in st.text)
          || (ops.removeBinary && n in st.binary)
          || (ops.fix && n in st.bad && n in good)))
    && (writable && ops.removeText ==> st.text.Keys <= books.moved)
    && (writable && ops.removeBinary ==> forall u | u in st.binary :: u in books.moved || u in books.renamed)
    && (forall u | u in books.renamed :: writable && ops.fix && u in st.binary && (Wants(st.miss, st.binary[u]) || Wants(st.bad, st.binary[u])))
    && (forall r | r in books.placed :: writable && ops.fix && (r in st.miss || r in st.bad)) && good == st.equal + books.placed
    && ((writable && ops.fix) || books.copies == multiset{})
  }

  /** The books at the end, from those after the placing. */
  lemma EntriesFollow(ops: Operation, writable: bool, st: Stat, good: set<string>, rest: map<string, Key>, first: Books, books: Books)
    requires PlacedBooks(st, ops.fix && writable, good, rest, first) == true
    requires books.placed == first.placed && books.renamed == first.renamed
    requires books.copies == first.copies && books.gone == first.gone + (if writable && ops.removeGarbage then st.garbage.Keys else {})
    requires books.moved == first.moved + (if writable && ops.removeBinary then rest.Keys else {}) + (if writable && ops.removeText then st.text.Keys else {})
    ensures Entries(ops, writable, st, good, books) == true
  {
  }

  /** The loops of `rom_scan` over the unknown members. */
  method ClearUnknown(ops: Operation, z: ZipRom, reject: ZipRom, zar: ZipArchive, st: Stat, rest: map<string, Key>,
                      ghost o: Start, ghost todo: set<string>, ghost good: set<string>, ghost wrong: set<string>, ghost first: Books)
    returns (ghost books: Books)
    requires Going(o, z, reject, zar, todo, good, wrong, first) == true && Remaining(o, st, rest, todo) == true
    requires PlacedBooks(st, ops.fix && !z.readonly, good, rest, first) == true
    modifies z`members, z`modified, reject`members, reject`modified
    ensures z.Synced() && reject.Synced()
    ensures Standing(o, z.members, reject.members, {}, good, wrong, books) == true
    ensures first.moved <= books.moved && Entries(ops, !z.readonly, st, good, books) == true
    ensures z.readonly ==> z.members == old(z.members) && reject.members == old(reject.members)
  {
    ghost var left;
    assert Remaining(o, st, rest, todo);
    left, books := MoveAway(ops.removeBinary, z, reject, zar, rest.Keys, o, todo, good, wrong, first);
    left, books := MoveAway(ops.removeText, z, reject, zar, st.text.Keys, o, left, good, wrong, books);
    assert GoingAsked(0);
    books := DeleteGarbage(ops.removeGarbage, z, st.garbage.Keys, reject.members, o, left, good, wrong, books);
    EntriesFollow(ops, !z.readonly, st, good, rest, first, books);
  }

  /** The steps of `rom_scan` before the zips are saved. */
  method Repair(ops: Operation, z: ZipRom, reject: ZipRom, zar: ZipArchive, st: Stat, ghost o: Start, ghost ana: Analyze)
    returns (left: map<string, Rom>, bad: map<string, Rom>, ghost good: set<string>, ghost wrong: set<string>, ghost books: Books)
    requires Apart(z, reject, zar) && zar.CoveredBut(z) && z.Synced() && reject.Synced()
    requires o.ms == z.members && o.rs == reject.members && o.pool == zar.Pool(z) && DistinctNames(o.ms)
    requires RomSets(st, o) == true && UnknownSets(st, o, ana) == true
    modifies z`members, z`modified, reject`members, reject`modified
    ensures z.Synced() && reject.Synced()
    ensures Standing(o, z.members, reject.members, {}, good, wrong, books) == true && Entries(ops, !z.readonly, st, good, books) == true
    ensures Outstanding(o, st, good, wrong, left, bad, ops.fix && !z.readonly, books.moved) == true
    ensures z.readonly ==> z.members == old(z.members) && reject.members == old(reject.members)
  {
    var rest;
    ghost var todo, first;
    left, bad, rest, todo, good, wrong, first := PlaceAll(ops.fix, z, reject, zar, st, o, ana);
    books := ClearUnknown(ops, z, reject, zar, st, rest, o, todo, good, wrong, first);
    OutstandingLater(o, st, good, wrong, left, bad, ops.fix && !z.readonly, first.moved, books.moved);
  }

  function OnDiskBag(disk: Option<seq<Member>>): multiset<Content> { Bag(if disk.Some? then disk.value else []) }

  /** The balance of one content. */
  ghost predicate BalancedAt(o: Start, now: multiset<Content>, rej: multiset<Content>, books: Books, c: Content) {
    Bag(o.ms)[c] + Bag(o.rs)[c] + books.copies[c] == now[c] + rej[c] + Bag(Taken(o.ms, books.gone))[c] + Bag(Taken(o.rs, books.moved))[c]
  }

  /** Some rom with that key is to be found. */
  predicate KeyToFind(o: Start, key: Key) { exists r :: r in o.game && ToFind(o, r) && o.game[r].key == key }

  /** Which members a scan moves, deletes, renames and puts in place: all garbage is deleted; all
      unknown text is moved; every unknown binary is moved, but for those renamed, which some rom
      to be found could use; roms to be found are put in place, all that are good afterwards, and
      of these only wrong ones are moved away; each if that operation is switched on. */
  ghost predicate Fates(ops: Operation, writable: bool, o: Start, ana: Analyze, now: seq<Member>, books: Books) {
    && (forall n :: n in books.gone <==> writable && ops.removeGarbage && Unknown(o, ana, n, Garbage))
    && (forall n | n in books.moved :: writable && (
          || (ops.removeText && Unknown(o, ana, n, Text))
          || (ops.removeBinary && Unknown(o, ana, n, Binary))
          || (ops.fix && ToFind(o, n) && Get(o.ms, n).Some? && Matches(Get(now, n), o.game[n].key))))
    && (forall n | writable && ops.removeText && Unknown(o, ana, n, Text) :: n in books.moved)
    && (forall n | writable && ops.removeBinary && Unknown(o, ana, n, Binary) :: n in books.moved || n in books.renamed)
    && (forall n | n in books.renamed :: writable && ops.fix && Unknown(o, ana, n, Binary) && KeyToFind(o, KeyOf(Get(o.ms, n).value)))
    && (forall r :: r in books.placed <==> writable && ops.fix && ToFind(o, r) && Matches(Get(now, r), o.game[r].key))
    && ((writable && ops.fix) || books.copies == multiset{})
  }

  /** What a scan leaves. The books balance, so no content is lost but garbage and what was
      overwritten in the reject zip, and nothing is invented; good roms stay good; and if the
      zip could be repaired, a rom is missing or wrong only if no zip had it. */
  ghost predicate Repaired(o: Start, active: bool, now: seq<Member>, rej: seq<Member>, books: Books) {
    && Balanced(o, now, rej, books) && Copied(o, books.copies)
    && Framed(o, now, rej, books) && InReject(o, rej, books) && Vanished(o, now, books)
    && (forall r | r in o.game && !o.game[r].nodump && Matches(Get(o.ms, r), o.game[r].key) :: Matches(Get(now, r), o.game[r].key))
    && (active ==> forall r | r in o.game && !o.game[r].nodump && !Matches(Get(now, r), o.game[r].key) :: Nowhere(o, o.game[r].key, books.moved))
  }

  lemma KeyWanted(o: Start, st: Stat, key: Key)
    requires RomSets(st, o) && (Wants(st.miss, key) || Wants(st.bad, key))
    ensures KeyToFind(o, key)
  {
    if Wants(st.miss, key) {
      var r :| r in st.miss && st.miss[r].key == key;
      assert ToFind(o, r) && o.game[r].key == key;
    } else {
      var r :| r in st.bad && st.bad[r].key == key;
      assert ToFind(o, r) && o.game[r].key == key;
    }
  }

  lemma FatesFollow(ops: Operation, writable: bool, o: Start, ana: Analyze, st: Stat, now: seq<Member>, good: set<string>, wrong: set<string>, books: Books,
                    left: map<string, Rom>, bad: map<string, Rom>)
    requires RomSets(st, o) && UnknownSets(st, o, ana) && Entries(ops, writable, st, good, books) == true && Settled(o, now, good, wrong)
    requires Outstanding(o, st, good, wrong, left, bad, ops.fix && writable, books.moved) == true
    ensures Fates(ops, writable, o, ana, now, books)
  {
    assert Entries(ops, writable, st, good, books) && Outstanding(o, st, good, wrong, left, bad, ops.fix && writable, books.moved);
    forall n | n in books.renamed
      ensures writable && ops.fix && Unknown(o, ana, n, Binary) && KeyToFind(o, KeyOf(Get(o.ms, n).value))
    {
      KeyWanted(o, st, st.binary[n]);
    }
  }

  lemma Finish(o: Start, ana: Analyze, st: Stat, ops: Operation, writable: bool, now: seq<Member>, rej: seq<Member>, good: set<string>, wrong: set<string>,
               left: map<string, Rom>, bad: map<string, Rom>, books: Books)
    requires RomSets(st, o) == true && UnknownSets(st, o, ana) == true
    requires Standing(o, now, rej, {}, good, wrong, books) == true && Entries(ops, writable, st, good, books) == true
    requires Outstanding(o, st, good, wrong, left, bad, ops.fix && writable, books.moved) == true
    ensures Repaired(o, ops.fix && writable, now, rej, books) == true
    ensures Fates(ops, writable, o, ana, now, books) == true
    ensures left == map[] && bad == map[] <==> Complete(now, o.game)
  {
    assert StandingAsked(0);
    AllPlaced(o, st, now, good, wrong, left, bad, ops.fix && writable, books.moved);
    FatesFollow(ops, writable, o, ana, st, now, good, wrong, books, left, bad);
  }

  /** `rom_scan` before the zips are saved; `good` says whether no rom is missing or wrong. */
  method ScanMembers(ops: Operation, z: ZipRom, reject: ZipRom, zar: ZipArchive, game: map<string, Rom>, ana: Analyze, ghost o: Start)
    returns (good: bool, ghost books: Books)
    requires Apart(z, reject, zar) && zar.CoveredBut(z) && z.Synced() && reject.Synced()
    requires o == Start(z.members, reject.members, game, zar.Pool(z)) && DistinctNames(z.members)
    modifies z`members, z`modified, reject`members, reject`modified
    ensures z.Synced() && reject.Synced()
    ensures Repaired(o, ops.fix && !z.readonly, z.members, reject.members, books) == true
    ensures Fates(ops, !z.readonly, o, ana, z.members, books) == true
    ensures good <==> Complete(z.members, game)
    ensures z.readonly ==> z.members == old(z.members) && reject.members == old(reject.members)
  {
    var st := StatRomZip(z.members, game, ana);
    RomsMean(st, o, ana);
    UnknownsMean(st, o, ana);
    var left, bad;
    ghost var fine, wrong;
    left, bad, fine, wrong, books := Repair(ops, z, reject, zar, st, o, ana);
    Finish(o, ana, st, ops, !z.readonly, z.members, reject.members, fine, wrong, left, bad, books);
    good := left == map[] && bad == map[];
  }

  /** The end of `rom_scan`: the zips are saved, and the zip is recorded if it holds files. */
  method SaveBoth(z: ZipRom, reject: ZipRom, good: bool) returns (recorded: Option<bool>)
    requires z != reject && z.Synced() && reject.Synced()
    modifies z`modified, z`disk, reject`modified, reject`disk
    ensures !z.modified && !reject.modified && z.Synced() && reject.Synced()
    ensures recorded == if HasFiles(z.members) then Some(good) else None
  {
    z.Save();
    recorded := None;
    var files := z.NotEmpty();
    if files {
      recorded := Some(good);
    }
    reject.Save();
  }

  /** `rom_scan`, whatever the operations are and whatever the reject zip holds. The zip is
      recorded as good exactly if it then holds every rom; and what is true in memory is true
      on disk, where only empty files can be missing. */
  method RomScan(ops: Operation, z: ZipRom, reject: ZipRom, game: map<string, Rom>, zar: ZipArchive, ana: Analyze)
    returns (recorded: Option<bool>, ghost books: Books)
    requires Apart(z, reject, zar) && zar.CoveredBut(z) && z.Synced() && reject.Synced()
    requires DistinctNames(z.members)
    modifies z`members, z`modified, z`disk, reject`members, reject`modified, reject`disk
    ensures var o := Start(old(z.members), old(reject.members), game, old(zar.Pool(z)));
            && Repaired(o, ops.fix && !z.readonly, z.members, reject.members, books) == true
            && Fates(ops, !z.readonly, o, ana, z.members, books) == true
            && (forall c: Content :: c.size > 0 ==> BalancedAt(o, OnDiskBag(z.disk), OnDiskBag(reject.disk), books, c))
    ensures z.readonly ==> z.members == old(z.members) && reject.members == old(reject.members)
    ensures recorded.Some? <==> HasFiles(z.members)
    ensures recorded.Some? ==> z.disk == Some(z.members) && (recorded.value <==> Complete(z.members, game))
  {
    ghost var o := Start(z.members, reject.members, game, zar.Pool(z));
    var good;
    good, books := ScanMembers(ops, z, reject, zar, game, ana, o);
    recorded := SaveBoth(z, reject, good);
    OnDiskBalanced(o, ops.fix && !z.readonly, z.members, reject.members, z.disk, reject.disk, books);
  }

  /** What a scan says of single members. A moved member is in the reject zip, under its name,
      and not in the zip, unless the rom of that name is; a deleted or renamed one is not in the
      zip; and what is under any other name is what was there, in both zips. */
  lemma MembersAfter(o: Start, active: bool, now: seq<Member>, rej: seq<Member>, books: Books, n: string)
    requires Repaired(o, active, now, rej, books)
    ensures n in books.moved || (n in books.placed && HasName(o.ms, n)) ==>
              Get(o.ms, n).Some? && Member(n, Get(o.ms, n).value) in rej &&
              (DistinctNames(o.rs) ==> Get(rej, n) == Get(o.ms, n))
    ensures n in books.moved && n !in o.game ==> !HasName(now, n)
    ensures n in books.gone || n in books.renamed ==> n in o.game || !HasName(now, n)
    ensures n in books.placed ==> n in o.game && Matches(Get(now, n), o.game[n].key)
    ensures n !in books.moved && n !in books.gone && n !in books.placed && n !in books.renamed ==>
              Get(now, n) == Get(o.ms, n) && Get(rej, n) == Get(o.rs, n)
  {
    assert InRejectAsked(0) && VanishedAsked(0) && FramedAsked(0);
    assert HasName(now, n) == Get(now, n).Some? && HasName(o.ms, n) == Get(o.ms, n).Some?;
    if (n in books.moved || (n in books.placed && HasName(o.ms, n))) && DistinctNames(o.rs) {
      var m := Member(n, Get(o.ms, n).value);
      assert m in rej;
      var i :| 0 <= i < |rej| && rej[i] == m;
      GetAt(rej, i);
    }
  }

  // ----- when nothing is lost

  /** No content of the two zips is lost, but for garbage. */
  ghost predicate Conserved(o: Start, now: seq<Member>, rej: seq<Member>, books: Books) {
    Bag(o.ms) + Bag(o.rs) <= Bag(now) + Bag(rej) + Bag(Taken(o.ms, books.gone))
  }

  /** The moved names that the reject zip had already. */
  function Clashes(o: Start, books: Books): set<string> { set n | n in books.moved && HasName(o.rs, n) }

  lemma LessExactly(all: multiset<Content>, copies: multiset<Content>, kept: multiset<Content>, lost: multiset<Content>)
    requires all + copies == kept + lost
    ensures all <= kept <==> lost <= copies
  {
    forall c: Content
      ensures all[c] + copies[c] == kept[c] + lost[c]
    {
      assert (all + copies)[c] == (kept + lost)[c];
    }
    if all <= kept {
      forall c: Content
        ensures lost[c] <= copies[c]
      {
        assert all[c] <= kept[c];
      }
    }
    if lost <= copies {
      forall c: Content
        ensures all[c] <= kept[c]
      {
        assert lost[c] <= copies[c];
      }
    }
  }

  /** Each moved name that the reject zip had already loses exactly one content there. So
      nothing is lost exactly if each of these was copied anew; in particular if there is no
      such name, and if nothing was copied only then. */
  lemma ConservedExactly(o: Start, now: seq<Member>, rej: seq<Member>, books: Books)
    requires Balanced(o, now, rej, books)
    ensures |Bag(Taken(o.rs, books.moved))| == |Clashes(o, books)|
    ensures Conserved(o, now, rej, books) <==> Bag(Taken(o.rs, books.moved)) <= books.copies
    ensures Clashes(o, books) == {} ==> Conserved(o, now, rej, books)
    ensures books.copies == multiset{} ==> (Conserved(o, now, rej, books) <==> Clashes(o, books) == {})
  {
    var lost, gone := Bag(Taken(o.rs, books.moved)), Bag(Taken(o.ms, books.gone));
    var all, kept := Bag(o.ms) + Bag(o.rs), Bag(now) + Bag(rej) + gone;
    TakenCount(o.rs, books.moved);
    assert all + books.copies == kept + lost;
    LessExactly(all, books.copies, kept, lost);
    assert |lost| == 0 <==> lost == multiset{};
  }

  /** Seen before the scan: no member that it may move has a name of the reject zip. */
  predicate NoClash(ops: Operation, o: Start, ana: Analyze) {
    forall m | m in o.ms && HasName(o.rs, m.name) ::
      !(ops.removeText && Unknown(o, ana, m.name, Text)) && !(ops.removeBinary && Unknown(o, ana, m.name, Binary)) &&
      !(ops.fix && ToFind(o, m.name))
  }

  /** Then nothing is lost. And without repairs this is the only way. */
  lemma SafeScan(ops: Operation, o: Start, ana: Analyze, now: seq<Member>, rej: seq<Member>, books: Books, active: bool)
    requires Repaired(o, active, now, rej, books) && Fates(ops, true, o, ana, now, books)
    ensures NoClash(ops, o, ana) ==> Conserved(o, now, rej, books)
    ensures !ops.fix ==> (Conserved(o, now, rej, books) <==> NoClash(ops, o, ana))
  {
    ConservedExactly(o, now, rej, books);
    if n :| n in Clashes(o, books) {
      var m := o.ms[FirstAt(o.ms, n)];
      assert m in o.ms && HasName(o.rs, m.name);
      assert !NoClash(ops, o, ana);
    }
    if !ops.fix && !NoClash(ops, o, ana) {
      var m :| m in o.ms && HasName(o.rs, m.name) &&
        !(!(ops.removeText && Unknown(o, ana, m.name, Text)) && !(ops.removeBinary && Unknown(o, ana, m.name, Binary)));
      assert m.name in Clashes(o, books);
    }
  }

  /** A scan that loses a content: an unknown text file in the zip, and another of that name
      in the reject zip. */
  lemma ScanLoses(o: Start, ana: Analyze, name: string, mine: Content, other: Content, now: seq<Member>, rej: seq<Member>, books: Books)
    requires mine != other && o == Start([Member(name, mine)], [Member(name, other)], map[], {}) && ana(name, KeyOf(mine)) == Text
    requires Repaired(o, false, now, rej, books) && Fates(Operation(false, false, true, false), true, o, ana, now, books)
    ensures other !in Bag(now) && other !in Bag(rej)
  {
    assert Unknown(o, ana, name, Text);
    assert Taken(o.rs, books.moved) == [Member(name, other)];
    assert (Bag(o.ms) + Bag(o.rs) + books.copies)[other] == 1;
    assert (Bag(now) + Bag(rej) + Bag(Taken(o.ms, books.gone)) + Bag(Taken(o.rs, books.moved)))[other] == 1;
  }

  /** And this is such a scan. */
  method LosingScan(name: string, mine: Content, other: Content) returns (z: ZipRom, reject: ZipRom)
    requires mine != other
    ensures other !in Bag(z.members) && other !in Bag(reject.members)
  {
    var ana: Analyze := (n, key) => Text;
    var zar := new ZipArchive();
    z := new ZipRom("game.zip", Some([Member(name, mine)]), false);
    reject := new ZipRom("rom_unknown/game.zip", Some([Member(name, other)]), false);
    ghost var o := Start(z.members, reject.members, map[], zar.Pool(z));
    assert o.pool == {};
    ghost var books;
    var recorded;
    recorded, books := RomScan(Operation(false, false, true, false), z, reject, map[], zar, ana);
    ScanLoses(o, ana, name, mine, other, z.members, reject.members, books);
  }

  // ----- the index

  /** In-place repairs with contents that are in the index keep the index complete. */
  lemma IndexStays(o: Start, now: seq<Member>, rej: seq<Member>, books: Books, index: set<Key>)
    requires Balanced(o, now, rej, books) && Copied(o, books.copies)
    requires InIndex(o.ms, index) && InIndex(o.rs, index) && forall d | d in o.pool :: KeyOf(d) in index
    ensures InIndex(now, index) && InIndex(rej, index)
  {
    forall k | 0 <= k < |now|
      ensures KeyOf(now[k].content) in index
    {
      InBag(now, k);
      SourceIndexed(o, now, rej, books, index, now[k].content);
    }
    forall k | 0 <= k < |rej|
      ensures KeyOf(rej[k].content) in index
    {
      InBag(rej, k);
      SourceIndexed(o, now, rej, books, index, rej[k].content);
    }
  }

  lemma SourceIndexed(o: Start, now: seq<Member>, rej: seq<Member>, books: Books, index: set<Key>, d: Content)
    requires Balanced(o, now, rej, books) && Copied(o, books.copies)
    requires InIndex(o.ms, index) && InIndex(o.rs, index) && forall e | e in o.pool :: KeyOf(e) in index
    requires d in Bag(now) || d in Bag(rej)
    ensures KeyOf(d) in index
  {
    Sources(o, now, rej, books, d);
    if d in Bag(o.ms) {
      var i := BagIn(o.ms, d);
    } else if d in Bag(o.rs) {
      var i := BagIn(o.rs, d);
    }
  }

  /** A scan and the index: the search through the index stays the search of every member. */
  method ScanIndexed(ops: Operation, z: ZipRom, reject: ZipRom, game: map<string, Rom>, zar: ZipArchive, ana: Analyze)
    returns (recorded: Option<bool>)
    requires Apart(z, reject, zar) && zar.Covered() && z in zar.zips && InIndex(reject.members, zar.index)
    requires z.Synced() && reject.Synced() && DistinctNames(z.members)
    modifies z`members, z`modified, z`disk, reject`members, reject`modified, reject`disk, zar
    ensures zar.Covered()
  {
    ghost var o := Start(z.members, reject.members, game, zar.Pool(z));
    ghost var books;
    recorded, books := RomScan(ops, z, reject, game, zar, ana);
    IndexStays(o, z.members, reject.members, books, zar.index);
    zar.Update(reject);
  }

  lemma OnDiskBalanced(o: Start, active: bool, now: seq<Member>, rej: seq<Member>, disk: Option<seq<Member>>, rejDisk: Option<seq<Member>>, books: Books)
    requires Repaired(o, active, now, rej, books)
    requires if HasFiles(now) then disk == Some(now) else disk.None? || disk == Some(now)
    requires if HasFiles(rej) then rejDisk == Some(rej) else rejDisk.None? || rejDisk == Some(rej)
    ensures forall c: Content :: c.size > 0 ==> BalancedAt(o, OnDiskBag(disk), OnDiskBag(rejDisk), books, c)
  {
    forall c: Content | c.size > 0
      ensures BalancedAt(o, OnDiskBag(disk), OnDiskBag(rejDisk), books, c)
    {
      OnDisk(now, disk, c);
      OnDisk(rej, rejDisk, c);
      assert (Bag(o.ms) + Bag(o.rs) + books.copies)[c] == (Bag(now) + Bag(rej) + Bag(Taken(o.ms, books.gone)) + Bag(Taken(o.rs, books.moved)))[c];
    }
  }
}
