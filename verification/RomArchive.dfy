/** The collection of open zips with its index of contents (ziprom.cc:246-408). */
module RomArchive {
  import opened RomZip

  /** `ziparchive_crcsize` */
  datatype Key = Key(size: nat, crc: nat)

  function KeyOf(c: Content): Key { Key(c.size, c.crc) }

  /** The first member with that key, or the end of the list. */
  function FirstKey(ms: seq<Member>, key: Key): (k: nat)
    ensures k <= |ms|
    ensures k < |ms| ==> KeyOf(ms[k].content) == key
    ensures forall j | 0 <= j < k :: KeyOf(ms[j].content) != key
  {
    if ms == [] || KeyOf(ms[0].content) == key then 0 else 1 + FirstKey(ms[1..], key)
  }

  predicate HasKey(ms: seq<Member>, key: Key) { FirstKey(ms, key) < |ms| }

  lemma HasKeyAt(ms: seq<Member>, key: Key, i: nat)
    requires i < |ms| && KeyOf(ms[i].content) == key
    ensures HasKey(ms, key)
  {
  }

  predicate InIndex(ms: seq<Member>, index: set<Key>) {
    forall k | 0 <= k < |ms| :: KeyOf(ms[k].content) in index
  }

  lemma NotIndexed(ms: seq<Member>, index: set<Key>, key: Key)
    requires InIndex(ms, index) && key !in index
    ensures !HasKey(ms, key)
  {
  }

  class ZipArchive {
    var zips: seq<ZipRom>
    var index: set<Key>

    /** Every member of every zip is in the index; the index may hold more, because nothing
        is ever taken out of it. */
    ghost predicate Covered()
      reads this, zips
    {
      forall i | 0 <= i < |zips| :: InIndex(zips[i].members, index)
    }

    ghost function Others(exclude: ZipRom?): set<ZipRom>
      reads this
    {
      set x | x in zips && x != exclude
    }

    /** The contents in all zips but one. */
    ghost function Pool(exclude: ZipRom?): set<Content>
      reads this, Others(exclude)
    {
      set i, k | 0 <= i < |zips| && zips[i] != exclude && 0 <= k < |zips[i].members| :: zips[i].members[k].content
    }

    /** The same for all zips but one. */
    ghost predicate CoveredBut(exclude: ZipRom?)
      reads this, Others(exclude)
    {
      forall i | 0 <= i < |zips| && zips[i] != exclude :: InIndex(zips[i].members, index)
    }

    constructor ()
      ensures Covered() && zips == [] && index == {}
    {
      zips, index := [], {};
    }

    /** The keys of a zip that is inserted. */
    method IndexAll(ms: seq<Member>)
      modifies this`index
      ensures old(index) <= index && InIndex(ms, index)
      ensures forall key | key in index :: key in old(index) || HasKey(ms, key)
    {
      var j := 0;
      while j < |ms|
        invariant 0 <= j <= |ms| && old(index) <= index
        invariant forall k | 0 <= k < j :: KeyOf(ms[k].content) in index
        invariant forall key | key in index :: key in old(index) || HasKey(ms, key)
      {
        HasKeyAt(ms, KeyOf(ms[j].content), j);
        index := index + {KeyOf(ms[j].content)};
        j := j + 1;
      }
    }

    /** `open_and_insert`, of a zip that could be opened. */
    method OpenAndInsert(a: ZipRom) returns (z: ZipRom)
      requires Covered()
      modifies this
      ensures Covered() && fresh(z) && zips == old(zips) + [z] && z.members == a.members && z.path == a.path
    {
      z := new ZipRom.Copy(a);
      ghost var before := zips;
      zips := zips + [z];
      IndexAll(z.members);
      assert forall i | 0 <= i < |before| :: zips[i] == before[i];
    }

    /** `find` by path. */
    method FindPath(path: string) returns (i: nat)
      ensures i == FirstPath(zips, path)
    {
      i := 0;
      while i < |zips|
        invariant 0 <= i <= |zips| && forall k | 0 <= k < i :: zips[k].path != path
      {
        if zips[i].path == path {
          FirstPathIs(zips, path, i);
          return;
        }
        i := i + 1;
      }
      FirstPathIs(zips, path, i);
    }

    /** `erase` */
    method Erase(i: nat)
      requires i < |zips| && Covered()
      modifies this`zips
      ensures Covered() && zips == old(zips[..i] + zips[i + 1..])
    {
      zips := zips[..i] + zips[i + 1..];
    }

    /** `update`: the zip of that path is replaced by a copy of `a`, or erased if `a` is empty. */
    method Update(a: ZipRom)
      requires Covered()
      modifies this
      ensures Covered()
      ensures var rest := DropPath(old(zips), a.path);
              if HasFiles(a.members) then
                |zips| == |rest| + 1 && zips[..|rest|] == rest &&
                fresh(zips[|rest|]) && zips[|rest|].members == a.members && zips[|rest|].path == a.path
              else zips == rest
    {
      var i := FindPath(a.path);
      if i < |zips| {
        Erase(i);
      }
      var files := a.NotEmpty();
      if files {
        var z := OpenAndInsert(a);
      }
    }

    /** `find_exclude_iter`, and `find_iter` without a zip to leave out: every member of every
        zip, in order. */
    method FindIter(exclude: ZipRom?, key: Key) returns (i: nat, k: nat)
      ensures i <= |zips| && (i < |zips| ==> zips[i] != exclude && k < |zips[i].members| && k == FirstKey(zips[i].members, key))
      ensures forall j | 0 <= j < i :: zips[j] != exclude ==> !HasKey(zips[j].members, key)
    {
      i, k := 0, 0;
      while i < |zips|
        invariant 0 <= i <= |zips| && forall j | 0 <= j < i :: zips[j] != exclude ==> !HasKey(zips[j].members, key)
      {
        if zips[i] != exclude {
          k := 0;
          var ms := zips[i].members;
          while k < |ms|
            invariant 0 <= k <= |ms| && forall j | 0 <= j < k :: KeyOf(ms[j].content) != key
          {
            if KeyOf(ms[k].content) == key {
              FirstKeyIs(ms, key, k);
              return;
            }
            k := k + 1;
          }
          FirstKeyIs(ms, key, k);
        }
        i := i + 1;
      }
    }

    /** `find_exclude` (and `find` with nothing to leave out): through the index, but with the
        result of the search of every member. */
    method FindExclude(exclude: ZipRom?, key: Key) returns (i: nat, k: nat)
      requires CoveredBut(exclude)
      ensures i <= |zips| && (i < |zips| ==> zips[i] != exclude && k < |zips[i].members| && k == FirstKey(zips[i].members, key))
      ensures forall j | 0 <= j < i :: zips[j] != exclude ==> !HasKey(zips[j].members, key)
    {
      if key in index {
        i, k := FindIter(exclude, key);
      } else {
        forall j | 0 <= j < |zips| && zips[j] != exclude
          ensures !HasKey(zips[j].members, key)
        {
          NotIndexed(zips[j].members, index, key);
        }
        i, k := |zips|, 0;
      }
    }
  }

  /** The first zip of that path, or the end of the list. */
  function FirstPath(zs: seq<ZipRom>, path: string): (i: nat)
    ensures i <= |zs| && (i < |zs| ==> zs[i].path == path)
    ensures forall k | 0 <= k < i :: zs[k].path != path
  {
    if zs == [] || zs[0].path == path then 0 else 1 + FirstPath(zs[1..], path)
  }

  lemma FirstPathIs(zs: seq<ZipRom>, path: string, i: nat)
    requires i <= |zs| && (i < |zs| ==> zs[i].path == path) && forall k | 0 <= k < i :: zs[k].path != path
    ensures FirstPath(zs, path) == i
  {
    var k := FirstPath(zs, path);
    assert k >= i;
  }

  function DropPath(zs: seq<ZipRom>, path: string): seq<ZipRom> {
    var i := FirstPath(zs, path);
    if i < |zs| then zs[..i] + zs[i + 1..] else zs
  }

  lemma FirstKeyIs(ms: seq<Member>, key: Key, i: nat)
    requires i <= |ms| && (i < |ms| ==> KeyOf(ms[i].content) == key) && forall k | 0 <= k < i :: KeyOf(ms[k].content) != key
    ensures FirstKey(ms, key) == i
  {
    var k := FirstKey(ms, key);
    assert k >= i;
  }
}
