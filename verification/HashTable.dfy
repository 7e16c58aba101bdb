/** The hash tables of the parser (expat/xmlparse.c:79-85, 5744-5840): open addressing with
    double hashing, as a map from names to records. */
module HashTable {
  import opened HashProbe

  const INIT_POWER := 6

  /** NAMED */
  class Named {
    const name: Key

    constructor (name: Key)
      ensures this.name == name
    {
      this.name := name;
    }
  }

  /** The slots in use. */
  ghost function Taken(s: seq<Named?>): set<nat> { set i: nat | i < |s| && s[i] != null }

  /** The first `k` probes hit slots in use. */
  ghost predicate Tried(s: seq<Named?>, at: Probes, k: nat) {
    forall j: nat {:trigger at(j)} | j < k :: at(j) < |s| && s[at(j)] != null
  }

  /** Slot `i` is where a search comes to before any free slot. */
  ghost predicate Reached(s: seq<Named?>, at: Probes, i: nat) {
    exists k: nat {:trigger at(k)} :: at(k) == i && Tried(s, at, k)
  }

  predicate Asked(i: nat) { true }

  /** Every record is reached by a search for its name; only for a slot that is asked for,
      which keeps the search out of the proofs that do not need it. */
  ghost predicate Placed(s: seq<Named?>) {
    forall i: nat {:trigger Asked(i)} :: Asked(i) && i < |s| && s[i] != null ==> Reached(s, ProbesOf(Hash(s[i].name), |s|), i)
  }

  /** The first `n` slots hold the records of `m`. */
  ghost predicate Holds(s: seq<Named?>, n: nat, m: map<Key, Named>) {
    n <= |s| && forall k {:trigger HoldsAsked(k)} :: HoldsAsked(k) ==> Records(s, n, m)
  }

  predicate HoldsAsked(k: int) { true }

  ghost predicate Records(s: seq<Named?>, n: nat, m: map<Key, Named>)
    requires n <= |s|
  {
    && (forall i: nat {:trigger s[i]} | i < n && s[i] != null :: s[i].name in m && m[s[i].name] == s[i])
    && (forall key {:trigger m[key]} | key in m :: m[key].name == key && exists i: nat :: i < n && s[i] == m[key])
    && (forall i: nat, j: nat {:trigger s[i], s[j]} | i < j < n && s[i] != null && s[j] != null :: s[i] != s[j])
  }

  lemma HoldsSlot(s: seq<Named?>, m: map<Key, Named>, i: nat)
    requires Holds(s, |s|, m) == true && i < |s| && s[i] != null
    ensures s[i].name in m && m[s[i].name] == s[i]
  {
    assert HoldsAsked(0);
  }

  lemma HoldsKey(s: seq<Named?>, m: map<Key, Named>, key: Key) returns (i: nat)
    requires Holds(s, |s|, m) == true && key in m
    ensures i < |s| && s[i] == m[key] && s[i].name == key
  {
    assert HoldsAsked(0);
    i :| i < |s| && s[i] == m[key];
  }

  // ----- the search ends

  ghost predicate Different(at: Probes, n: nat) {
    forall i: nat, j: nat {:trigger at(i), at(j)} | i < j < n :: at(i) != at(j)
  }

  lemma ProbesDifferent(h: nat, n: nat)
    requires IsSize(n)
    ensures Different(ProbesOf(h, n), n) && forall k: nat :: ProbesOf(h, n)(k) < n
  {
    StepOdd(h, n);
    var at := ProbesOf(h, n);
    forall i: nat, j: nat {:trigger at(i), at(j)} | i < j < n
      ensures at(i) != at(j)
    {
      ProbesDistinct(h, n, i, j);
    }
  }

  ghost function Slots(at: Probes, k: nat): set<nat> { set j: nat {:trigger at(j)} | j < k :: at(j) }

  lemma {:induction false} SlotsCount(at: Probes, n: nat, k: nat)
    requires Different(at, n) && k <= n
    ensures |Slots(at, k)| == k
  {
    if k == 0 {
      assert Slots(at, k) == {};
    } else {
      SlotsCount(at, n, k - 1);
      assert Slots(at, k) == Slots(at, k - 1) + {at(k - 1)};
    }
  }

  lemma {:induction false} SubsetSmaller(a: set<nat>, b: set<nat>)
    requires a <= b
    ensures |a| <= |b|
    decreases |a|
  {
    if a != {} {
      var x :| x in a;
      SubsetSmaller(a - {x}, b - {x});
    }
  }

  /** A search that has not ended has tried no more slots than are in use. */
  lemma SearchBounded(s: seq<Named?>, at: Probes, k: nat)
    requires Different(at, |s|) && |Taken(s)| < |s| && Tried(s, at, k)
    ensures k <= |Taken(s)|
  {
    var most := if k <= |s| then k else |s|;
    SlotsCount(at, |s|, most);
    SubsetSmaller(Slots(at, most), Taken(s));
  }

  /** A free slot that the search for a name comes to: a record of that name would have
      been met before. */
  lemma NotThere(s: seq<Named?>, at: Probes, k: nat, i: nat)
    requires i < |s| && s[i] != null && Reached(s, at, i)
    requires Tried(s, at, k) && at(k) < |s| && s[at(k)] == null
    ensures exists j: nat :: j < k && at(j) == i
  {
    var j: nat :| at(j) == i && Tried(s, at, j);
    assert j <= k;
  }

  // ----- one more record

  lemma TakenMore(s: seq<Named?>, t: seq<Named?>, i: nat)
    requires |t| == |s| && i < |s| && s[i] == null && t[i] != null && forall j: nat | j < |s| && j != i :: t[j] == s[j]
    ensures |Taken(t)| == |Taken(s)| + 1
  {
    assert Taken(t) == Taken(s) + {i};
  }

  lemma ReachedMore(s: seq<Named?>, t: seq<Named?>, at: Probes, i: nat)
    requires Reached(s, at, i) && |t| == |s| && forall j: nat | j < |s| && s[j] != null :: t[j] != null
    ensures Reached(t, at, i)
  {
    var k: nat :| at(k) == i && Tried(s, at, k);
    assert Tried(t, at, k);
  }

  lemma PlacedMore(s: seq<Named?>, t: seq<Named?>, i: nat)
    requires Placed(s) && |t| == |s| && i < |s| && t[i] != null && s[i] == null
    requires forall j: nat {:trigger t[j]} {:trigger s[j]} | j < |s| && j != i :: t[j] == s[j]
    requires Reached(s, ProbesOf(Hash(t[i].name), |s|), i)
    ensures Placed(t)
  {
    forall j: nat {:trigger Asked(j)} | Asked(j) && j < |t| && t[j] != null
      ensures Reached(t, ProbesOf(Hash(t[j].name), |t|), j)
    {
      ReachedMore(s, t, ProbesOf(Hash(t[j].name), |s|), j);
    }
  }

  lemma HoldsMore(s: seq<Named?>, t: seq<Named?>, i: nat, e: Named, m: map<Key, Named>)
    requires Holds(s, |s|, m) && |t| == |s| && i < |s| && s[i] == null && t[i] == e && e.name !in m
    requires forall j: nat {:trigger t[j]} | j < |s| && j != i :: t[j] == s[j]
    ensures Holds(t, |t|, m[e.name := e])
  {
    var now := m[e.name := e];
    assert HoldsAsked(0);
    forall key {:trigger now[key]} | key in now
      ensures now[key].name == key && exists j: nat :: j < |t| && t[j] == now[key]
    {
      if key == e.name {
        assert t[i] == now[key];
      } else {
        var j: nat :| j < |s| && s[j] == m[key];
        assert t[j] == now[key];
      }
    }
    forall j: nat, k: nat {:trigger t[j], t[k]} | j < k < |t| && t[j] != null && t[k] != null
      ensures t[j] != t[k]
    {
      assert j != i ==> t[j].name in m;
      assert k != i ==> t[k].name in m;
    }
  }

  /** The map is determined by the slots. */
  lemma HoldsOne(s: seq<Named?>, m: map<Key, Named>, n: map<Key, Named>)
    requires Holds(s, |s|, m) && Holds(s, |s|, n)
    ensures m == n
  {
    assert HoldsAsked(0);
    forall key | key in m
      ensures key in n && n[key] == m[key]
    {
      var i: nat :| i < |s| && s[i] == m[key];
    }
    forall key | key in n
      ensures key in m
    {
      var i: nat :| i < |s| && s[i] == n[key];
    }
  }

  /** One slot more of the old table. */
  lemma HoldsNext(s: seq<Named?>, n: nat, m: map<Key, Named>, all: map<Key, Named>)
    requires n < |s| && Holds(s, n, m) && Holds(s, |s|, all)
    ensures s[n] == null ==> Holds(s, n + 1, m)
    ensures s[n] != null ==> s[n].name !in m && Holds(s, n + 1, m[s[n].name := s[n]])
  {
    assert HoldsAsked(0);
    if s[n] != null {
      var e := s[n];
      assert all[e.name] == e;
      assert forall i: nat | i < n && s[i] != null :: all[s[i].name] == s[i];
      var now := m[e.name := e];
      forall key {:trigger now[key]} | key in now
        ensures now[key].name == key && exists j: nat :: j < n + 1 && s[j] == now[key]
      {
        if key == e.name {
          assert s[n] == now[key];
        } else {
          var j: nat :| j < n && s[j] == m[key];
        }
      }
    } else {
      forall key {:trigger m[key]} | key in m
        ensures m[key].name == key && exists j: nat :: j < n + 1 && s[j] == m[key]
      {
        var j: nat :| j < n && s[j] == m[key];
      }
    }
  }

  /** The slots in use below `n`. */
  ghost function TakenTo(s: seq<Named?>, n: nat): set<nat> { set i: nat | i < n && i < |s| && s[i] != null }

  lemma TakenNext(s: seq<Named?>, n: nat)
    requires n < |s|
    ensures |TakenTo(s, n + 1)| == |TakenTo(s, n)| + (if s[n] == null then 0 else 1)
    ensures |TakenTo(s, n + 1)| <= |Taken(s)|
  {
    SubsetSmaller(TakenTo(s, n + 1), Taken(s));
    if s[n] == null {
      assert TakenTo(s, n + 1) == TakenTo(s, n);
    } else {
      assert TakenTo(s, n + 1) == TakenTo(s, n) + {n};
    }
  }

  lemma NothingTaken(s: seq<Named?>)
    requires forall i: nat | i < |s| :: s[i] == null
    ensures Taken(s) == {} && Placed(s) && Holds(s, |s|, map[])
    ensures forall at: Probes, i: nat :: at(0) == i ==> Reached(s, at, i)
  {
    forall at: Probes, i: nat | at(0) == i
      ensures Reached(s, at, i)
    {
      assert Tried(s, at, 0);
    }
  }

  lemma NoRecords(s: seq<Named?>, m: map<Key, Named>)
    requires Holds(s, |s|, m) && s == []
    ensures m == map[]
  {
    NothingTaken(s);
    HoldsOne(s, m, map[]);
  }

  // ----- the table

  class Table {
    var v: array<Named?>
    var power: nat
    var size: nat
    var used: nat
    /** The map that the table stands for. */
    ghost var contents: map<Key, Named>

    ghost predicate Valid()
      reads this, v
    {
      && size == v.Length
      && used == |Taken(v[..])|
      && Holds(v[..], size, contents)
      && (size == 0 ==> used == 0)
      && (size != 0 ==> power >= INIT_POWER && size == Pow2(power) && Placed(v[..]) && used <= size / 2)
    }

    /** `hashTableInit` */
    constructor ()
      ensures Valid() && fresh(v) && contents == map[]
    {
      v := new Named?[0];
      power, size, used, contents := 0, 0, 0, map[];
    }

    /** The probe loop of `lookup`: a record of that name, or a free slot after `k` others. */
    method Search(name: Key, h: nat, ghost there: Named?) returns (i: nat, ghost k: nat)
      requires size == v.Length && IsSize(size) && |Taken(v[..])| < size
      requires there != null ==> there.name == name
      ensures i < size && (v[i] != null ==> v[i].name == name)
      ensures var at := ProbesOf(h, size);
              i == at(k) && Tried(v[..], at, k) && forall j: nat {:trigger at(j)} | j < k :: v[..][at(j)] != there
    {
      ghost var s := v[..];
      ghost var at := ProbesOf(h, size);
      StepOdd(h, size);
      ProbesDifferent(h, size);
      i := Home(h, size);
      var step := 0;
      k := 0;
      while v[i] != null
        invariant i < size && i == at(k) && Tried(s, at, k) && k <= |Taken(s)|
        invariant step == 0 || step == ProbeStep(h, size)
        invariant forall j: nat {:trigger at(j)} | j < k :: s[at(j)] != there
        decreases |Taken(s)| - k
      {
        assert v[i] == s[i];
        if v[i].name == name {
          return;
        }
        if step == 0 {
          step := ProbeStep(h, size);
        }
        i := Next(i, step, size);
        k := k + 1;
        SearchBounded(s, at, k);
      }
    }

    /** The record of that name, or the free slot where the search for it ends. */
    method Find(name: Key) returns (i: nat)
      requires Valid() && size > 0
      ensures i < size
      ensures if name in contents then v[i] == contents[name] else v[i] == null && Reached(v[..], ProbesOf(Hash(name), size), i)
    {
      SizeGrows(size, power);
      ghost var s := v[..];
      ghost var there, slot := null, 0;
      if name in contents {
        slot := HoldsKey(s, contents, name);
        there := s[slot];
      }
      var h := HashKey(name);
      ghost var k;
      i, k := Search(name, h, there);
      if v[i] != null {
        HoldsSlot(s, contents, i);
      } else if name in contents {
        assert Asked(slot);
        NotThere(s, ProbesOf(h, size), k, slot);
      }
    }

    /** The other two probe loops: a free slot for a hash. */
    method FindFree(tbl: array<Named?>, h: nat) returns (i: nat)
      requires IsSize(tbl.Length) && |Taken(tbl[..])| < tbl.Length
      ensures i < tbl.Length && tbl[i] == null && Reached(tbl[..], ProbesOf(h, tbl.Length), i)
    {
      ghost var s := tbl[..];
      ghost var at := ProbesOf(h, tbl.Length);
      StepOdd(h, tbl.Length);
      ProbesDifferent(h, tbl.Length);
      i := Home(h, tbl.Length);
      var step := 0;
      ghost var k := 0;
      while tbl[i] != null
        invariant i < tbl.Length && i == at(k) && Tried(s, at, k) && k <= |Taken(s)|
        invariant step == 0 || step == ProbeStep(h, tbl.Length)
        decreases |Taken(s)| - k
      {
        assert tbl[i] == s[i];
        if step == 0 {
          step := ProbeStep(h, tbl.Length);
        }
        i := Next(i, step, tbl.Length);
        k := k + 1;
        SearchBounded(s, at, k);
      }
    }

    /** A record into a free slot of a table that is not full. */
    method Put(tbl: array<Named?>, i: nat, e: Named, ghost m: map<Key, Named>)
      requires i < tbl.Length && tbl[i] == null && Placed(tbl[..]) && Reached(tbl[..], ProbesOf(Hash(e.name), tbl.Length), i)
      requires Holds(tbl[..], tbl.Length, m) && e.name !in m
      modifies tbl
      ensures Placed(tbl[..]) && Holds(tbl[..], tbl.Length, m[e.name := e])
      ensures |Taken(tbl[..])| == old(|Taken(tbl[..])|) + 1
    {
      ghost var s := tbl[..];
      tbl[i] := e;
      ghost var t := tbl[..];
      assert forall j: nat {:trigger t[j]} | j < |s| && j != i :: t[j] == s[j];
      TakenMore(s, t, i);
      PlacedMore(s, t, i);
      HoldsMore(s, t, i, e, m);
    }

    /** One old slot: its record, if any, goes into the new table. */
    method MoveSlot(newV: array<Named?>, i: nat, ghost m: map<Key, Named>) returns (ghost now: map<Key, Named>)
      requires Valid() && newV != v && i < size && IsSize(newV.Length) && size < newV.Length
      requires Placed(newV[..]) && Holds(newV[..], newV.Length, m) && Holds(v[..], i, m)
      requires |Taken(newV[..])| == |TakenTo(v[..], i)|
      modifies newV
      ensures Placed(newV[..]) && Holds(newV[..], newV.Length, now) && Holds(v[..], i + 1, now)
      ensures |Taken(newV[..])| == |TakenTo(v[..], i + 1)| <= used
    {
      ghost var s := v[..];
      HoldsNext(s, i, m, contents);
      TakenNext(s, i);
      SubsetSmaller(TakenTo(s, i), Taken(s));
      now := m;
      if v[i] != null {
        var e: Named := v[i];
        assert s[i] == e;
        var newHash := HashKey(e.name);
        var j := FindFree(newV, newHash);
        Put(newV, j, e, m);
        now := m[e.name := e];
      }
    }

    /** The table when it is half full: the same records in twice as many slots. */
    method Rehash()
      requires Valid() && size > 0
      modifies this`v, this`power, this`size
      ensures Valid() && fresh(v) && size == 2 * old(size)
    {
      var newPower := power + 1;
      var newSize := Pow2(newPower);
      SizeGrows(size, power);
      SizeGrows(newSize, newPower);
      var newV := new Named?[newSize](_ => null);
      ghost var s := v[..];
      ghost var m: map<Key, Named> := map[];
      NothingTaken(newV[..]);
      assert TakenTo(s, 0) == {};
      var i := 0;
      while i < size
        invariant i <= size && fresh(newV) && newV.Length == newSize && v[..] == s
        invariant v == old(v) && size == old(size) && power == old(power)
        invariant Placed(newV[..]) && Holds(newV[..], newSize, m) && Holds(s, i, m)
        invariant |Taken(newV[..])| == |TakenTo(s, i)| <= used
      {
        m := MoveSlot(newV, i, m);
        i := i + 1;
      }
      HoldsOne(s, m, contents);
      assert TakenTo(s, size) == Taken(s);
      v, power, size := newV, newPower, newSize;
    }

    /** The first slots, and the one for a name. */
    method Create(name: Key) returns (i: nat)
      requires Valid() && size == 0
      modifies this`v, this`power, this`size
      ensures Valid() && fresh(v) && size > 0 && used < size / 2
      ensures i < size && v[i] == null && Reached(v[..], ProbesOf(Hash(name), size), i)
    {
      power := INIT_POWER;
      size := Pow2(INIT_POWER);
      ghost var none := v[..];
      v := new Named?[size](_ => null);
      SizeGrows(size, power);
      NothingTaken(none);
      NothingTaken(v[..]);
      HoldsOne(none, contents, map[]);
      var h := HashKey(name);
      i := Home(h, size);
      assert ProbesOf(Hash(name), size)(0) == i;
    }

    /** A slot for a name that is not there, which the search left at `at`: the table grows
        when it is half full. */
    method MakeRoom(name: Key, at: nat) returns (i: nat)
      requires Valid() && size > 0 && at < size && v[at] == null && Reached(v[..], ProbesOf(Hash(name), size), at)
      modifies this`v, this`power, this`size
      ensures Valid() && (v == old(v) || fresh(v)) && size > 0 && used < size / 2
      ensures i < size && v[i] == null && Reached(v[..], ProbesOf(Hash(name), size), i)
    {
      SizeGrows(size, power);
      i := at;
      if used / Pow2(power - 1) != 0 {
        Rehash();
        SizeGrows(size, power);
        var h := HashKey(name);
        i := FindFree(v, h);
      }
    }

    /** A new record in the slot `i`. */
    method Add(name: Key, i: nat) returns (r: Named)
      requires Valid() && size > 0 && used < size / 2 && name !in contents
      requires i < size && v[i] == null && Reached(v[..], ProbesOf(Hash(name), size), i)
      modifies v, this`used, this`contents
      ensures Valid() && fresh(r) && r.name == name && contents == old(contents)[name := r]
    {
      r := new Named(name);
      Put(v, i, r, contents);
      used := used + 1;
      contents := contents[name := r];
    }

    /** `lookup`: the record of that name if there is one; otherwise a new one if
        `createSize` is not 0. */
    method Lookup(name: Key, createSize: nat) returns (r: Named?)
      requires Valid()
      modifies this, v
      ensures Valid() && (v == old(v) || fresh(v))
      ensures name in old(contents) ==> r == old(contents)[name] && contents == old(contents)
      ensures name !in old(contents) && createSize == 0 ==> r == null && contents == old(contents)
      ensures name !in old(contents) && createSize != 0 ==>
                r != null && fresh(r) && r.name == name && contents == old(contents)[name := r]
    {
      var i: nat;
      if size == 0 {
        NoRecords(v[..], contents);
        if createSize == 0 {
          return null;
        }
        i := Create(name);
      } else {
        i := Find(name);
        if v[i] != null {
          return v[i];
        }
        if createSize == 0 {
          return null;
        }
        i := MakeRoom(name, i);
      }
      r := Add(name, i);
    }

    /** `hashTableClear` */
    method Clear()
      requires Valid()
      modifies v, this`used, this`contents
      ensures Valid() && contents == map[]
    {
      var i := 0;
      while i < size
        invariant i <= size == v.Length && forall k: nat | k < i :: v[k] == null
      {
        v[i] := null;
        i := i + 1;
      }
      used, contents := 0, map[];
      NothingTaken(v[..]);
    }
  }
}
