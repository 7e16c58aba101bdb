/** Zips of roms (ziprom.cc:57-244): remove, move, add, rename and swap of members between
    a zip and the zip of rejected files. */
module RomZip {
  import opened Wrappers
  import opened Endian

  /** What a member holds. */
  datatype Content = Content(size: nat, crc: nat, data: seq<Byte>)

  /** A member; names are compared without case, so they stand here with their case folded. */
  datatype Member = Member(name: string, content: Content)

  // ----- lists of members

  /** The first member of that name, or the end of the list: `ziprom::find`. */
  function FirstAt(ms: seq<Member>, name: string): (i: nat)
    ensures i <= |ms|
    ensures i < |ms| ==> ms[i].name == name
    ensures forall k | 0 <= k < i :: ms[k].name != name
  {
    if ms == [] || ms[0].name == name then 0 else 1 + FirstAt(ms[1..], name)
  }

  predicate HasName(ms: seq<Member>, name: string) { FirstAt(ms, name) < |ms| }

  lemma HasNameAt(ms: seq<Member>, name: string, i: nat)
    requires i < |ms| && ms[i].name == name
    ensures HasName(ms, name) && FirstAt(ms, name) <= i
  {
  }

  function Without(ms: seq<Member>, i: nat): (r: seq<Member>)
    requires i < |ms|
    ensures |r| == |ms| - 1
    ensures forall k | 0 <= k < |r| :: r[k] == if k < i then ms[k] else ms[k + 1]
  {
    ms[..i] + ms[i + 1..]
  }

  function RemoveName(ms: seq<Member>, name: string): seq<Member> {
    if HasName(ms, name) then Without(ms, FirstAt(ms, name)) else ms
  }

  predicate DistinctNames(ms: seq<Member>) {
    forall i, j | 0 <= i < j < |ms| :: ms[i].name != ms[j].name
  }

  function Contents(ms: seq<Member>): (cs: seq<Content>)
    ensures |cs| == |ms| && forall i | 0 <= i < |ms| :: cs[i] == ms[i].content
  {
    seq(|ms|, i requires 0 <= i < |ms| => ms[i].content)
  }

  /** The contents, with their number of copies. */
  function Bag(ms: seq<Member>): multiset<Content> { multiset(Contents(ms)) }

  /** The content under a name. */
  function Get(ms: seq<Member>, name: string): Option<Content> {
    if HasName(ms, name) then Some(ms[FirstAt(ms, name)].content) else None
  }

  /** The same, as a bag. */
  function BagAt(ms: seq<Member>, name: string): multiset<Content> {
    if HasName(ms, name) then multiset{ms[FirstAt(ms, name)].content} else multiset{}
  }

  lemma BagAppend(ms: seq<Member>, m: Member)
    ensures Bag(ms + [m]) == Bag(ms) + multiset{m.content}
  {
    assert Contents(ms + [m]) == Contents(ms) + [m.content];
  }

  lemma BagCons(m: Member, ms: seq<Member>)
    ensures Bag([m] + ms) == multiset{m.content} + Bag(ms)
  {
    assert Contents([m] + ms) == [m.content] + Contents(ms);
  }

  lemma BagWithout(ms: seq<Member>, i: nat)
    requires i < |ms|
    ensures Bag(ms) == Bag(Without(ms, i)) + multiset{ms[i].content}
  {
    var cs := Contents(ms);
    assert Contents(Without(ms, i)) == cs[..i] + cs[i + 1..];
    assert cs == cs[..i] + [cs[i]] + cs[i + 1..];
  }

  lemma BagReplace(ms: seq<Member>, i: nat, m: Member)
    requires i < |ms| && m.content == ms[i].content
    ensures Bag(ms[i := m]) == Bag(ms)
  {
    assert Contents(ms[i := m]) == Contents(ms);
  }

  lemma WithoutAppend(ms: seq<Member>, m: Member, i: nat)
    requires i < |ms|
    ensures Without(ms + [m], i) == Without(ms, i) + [m]
  {
  }

  /** Members that change places. */
  lemma SwapBag(ms: seq<Member>, rs: seq<Member>, i: nat, k: nat)
    requires i <= |ms| && k < |rs|
    ensures i == |ms| ==> Bag(ms + [rs[k]]) + Bag(Without(rs, k)) == Bag(ms) + Bag(rs)
    ensures i < |ms| ==> Bag(Without(ms, i) + [rs[k]]) + Bag(Without(rs, k) + [ms[i]]) == Bag(ms) + Bag(rs)
  {
    BagWithout(rs, k);
    BagAppend(ms, rs[k]);
    if i < |ms| {
      BagWithout(ms, i);
      BagAppend(Without(ms, i), rs[k]);
      BagAppend(Without(rs, k), ms[i]);
    }
  }

  /** Every member is in the bag. */
  lemma InBag(ms: seq<Member>, i: nat)
    requires i < |ms|
    ensures ms[i].content in Bag(ms)
  {
    BagWithout(ms, i);
  }

  lemma BagIn(ms: seq<Member>, c: Content) returns (i: nat)
    requires c in Bag(ms)
    ensures i < |ms| && ms[i].content == c
  {
    var cs := Contents(ms);
    assert c in cs;
    i :| i < |cs| && cs[i] == c;
  }

  // ----- what an operation does to the names

  lemma GetAt(ms: seq<Member>, i: nat)
    requires DistinctNames(ms) && i < |ms|
    ensures Get(ms, ms[i].name) == Some(ms[i].content) && FirstAt(ms, ms[i].name) == i
  {
    HasNameAt(ms, ms[i].name, i);
  }

  lemma GetWithout(ms: seq<Member>, i: nat, name: string)
    requires DistinctNames(ms) && i < |ms|
    ensures DistinctNames(Without(ms, i))
    ensures Get(Without(ms, i), name) == if name == ms[i].name then None else Get(ms, name)
  {
    var ns := Without(ms, i);
    if HasName(ns, name) {
      var k := FirstAt(ns, name);
      GetAt(ms, if k < i then k else k + 1);
    } else if HasName(ms, name) {
      var k := FirstAt(ms, name);
      if k != i {
        HasNameAt(ns, name, if k < i then k else k - 1);
      }
    }
  }

  lemma GetAppend(ms: seq<Member>, m: Member, name: string)
    requires DistinctNames(ms) && !HasName(ms, m.name)
    ensures DistinctNames(ms + [m])
    ensures Get(ms + [m], name) == if name == m.name then Some(m.content) else Get(ms, name)
  {
    var ns := ms + [m];
    assert FirstAt(ms, m.name) == |ms|;
    assert DistinctNames(ns);
    GetAt(ns, |ms|);
    if HasName(ms, name) {
      GetAt(ms, FirstAt(ms, name));
      GetAt(ns, FirstAt(ms, name));
    } else if name != m.name {
      assert forall k | 0 <= k < |ns| :: ns[k].name != name;
    }
  }

  lemma GetRenamed(ms: seq<Member>, i: nat, to: string, name: string)
    requires DistinctNames(ms) && i < |ms| && !HasName(ms, to)
    ensures var ns := ms[i := Member(to, ms[i].content)];
            && DistinctNames(ns)
            && Get(ns, name) == if name == to then Some(ms[i].content) else if name == ms[i].name then None else Get(ms, name)
  {
    var ns := ms[i := Member(to, ms[i].content)];
    assert FirstAt(ms, to) == |ms|;
    GetAt(ns, i);
    if HasName(ns, name) {
      var k := FirstAt(ns, name);
      if k != i {
        GetAt(ms, k);
      }
    } else if HasName(ms, name) {
      var k := FirstAt(ms, name);
      if k != i {
        HasNameAt(ns, name, k);
      }
    }
  }

  /** What is under the other names of a list that loses a member. */
  lemma OtherWithout(ms: seq<Member>, i: nat, name: string)
    requires i < |ms| && name != ms[i].name
    ensures Get(Without(ms, i), name) == Get(ms, name)
  {
    var k := FirstAt(ms, name);
    FirstIs(Without(ms, i), name, if k < i then k else k - 1);
  }

  lemma OtherAppend(ms: seq<Member>, m: Member, name: string)
    requires name != m.name
    ensures Get(ms + [m], name) == Get(ms, name)
  {
    var k := FirstAt(ms, name);
    FirstIs(ms + [m], name, if k < |ms| then k else |ms| + 1);
  }

  // ----- the class

  class ZipRom {
    const path: string
    var members: seq<Member>
    var modified: bool
    var readonly: bool
    /** The members in the file on disk, if there is a file. */
    var disk: Option<seq<Member>>

    /** `open`: of the file with these members, or of a file that does not exist yet. */
    constructor (path: string, disk: Option<seq<Member>>, readonly: bool)
      ensures this.path == path && this.disk == disk && !modified
      ensures members == (if disk.Some? then disk.value else []) && this.readonly == (disk.Some? && readonly)
    {
      this.path, this.disk, modified := path, disk, false;
      members := if disk.Some? then disk.value else [];
      this.readonly := disk.Some? && readonly;
    }

    /** The copy that an archive keeps. */
    constructor Copy(a: ZipRom)
      ensures path == a.path && members == a.members && disk == a.disk && modified == a.modified && readonly == a.readonly
    {
      path, members, disk, modified, readonly := a.path, a.members, a.disk, a.modified, a.readonly;
    }

    /** `find` */
    method Find(name: string) returns (i: nat)
      ensures i == FirstAt(members, name)
    {
      i := 0;
      while i < |members|
        invariant 0 <= i <= |members| && forall k | 0 <= k < i :: members[k].name != name
      {
        if members[i].name == name {
          FirstIs(members, name, i);
          return;
        }
        i := i + 1;
      }
      FirstIs(members, name, i);
    }

    /** `zip::insert` of a copy of a member. */
    method Insert(c: Content, name: string)
      modifies this`members, this`modified
      ensures modified && members == old(members) + [Member(name, c)]
    {
      members, modified := members + [Member(name, c)], true;
    }

    method Erase(i: nat)
      requires i < |members|
      modifies this`members, this`modified
      ensures modified && members == Without(old(members), i)
    {
      members, modified := members[..i] + members[i + 1..], true;
    }

    /** `remove` */
    method Remove(name: string)
      modifies this`members, this`modified
      ensures members == RemoveName(old(members), name)
      ensures modified == (old(modified) || HasName(old(members), name))
    {
      var i := Find(name);
      if i < |members| {
        Erase(i);
      }
    }

    /** `move`: the file of that name in `reject` is deleted first. */
    method Move(src: string, reject: ZipRom, dst: string) returns (ok: bool)
      requires reject != this
      modifies this`members, this`modified, reject`members, reject`modified
      ensures ok == HasName(old(members), src)
      ensures members == RemoveName(old(members), src)
      ensures reject.members == Moved(old(members), old(reject.members), src, dst)
      ensures if ok then modified && reject.modified else modified == old(modified)
      ensures Bag(members) + Bag(reject.members) == old(Bag(members)) + old(Bag(reject.members)) <==>
              !HasName(old(reject.members), dst)
    {
      MoveExactly(members, reject.members, src, dst);
      reject.Remove(dst);
      var i := Find(src);
      if i == |members| {
        return false;
      }
      reject.Insert(members[i].content, dst);
      Erase(i);
      return true;
    }

    /** `remove` with a zip for what is removed. */
    method RemoveTo(name: string, reject: ZipRom)
      requires reject != this
      modifies this`members, this`modified, reject`members, reject`modified
      ensures members == RemoveName(old(members), name)
      ensures reject.members == Rejected(old(members), old(reject.members), name)
      ensures if HasName(old(members), name) then modified && reject.modified
              else modified == old(modified) && reject.modified == old(reject.modified)
    {
      var i := Find(name);
      if i < |members| {
        var ok := Move(name, reject, name);
      }
    }

    /** `add`: a copy of a member, over the one of that name. */
    method AddOver(c: Content, dst: string, reject: ZipRom)
      requires reject != this
      modifies this`members, this`modified, reject`members, reject`modified
      ensures modified && members == Added(old(members), dst, c)
      ensures reject.members == Rejected(old(members), old(reject.members), dst)
      ensures reject.modified == (HasName(old(members), dst) || old(reject.modified))
      ensures Bag(members) + Bag(reject.members) == old(Bag(members)) + old(Bag(reject.members)) + multiset{c} <==>
              !(HasName(old(members), dst) && HasName(old(reject.members), dst))
    {
      AddExactly(members, reject.members, dst, c);
      RemoveTo(dst, reject);
      Insert(c, dst);
    }

    /** `rename`: false if there is no member of the old name, after the new name has been
        cleared. */
    method Rename(src: string, dst: string, reject: ZipRom) returns (ok: bool)
      requires reject != this
      modifies this`members, this`modified, reject`members, reject`modified
      ensures ok == HasName(RemoveName(old(members), dst), src) && members == Renamed(old(members), src, dst)
      ensures reject.members == Rejected(old(members), old(reject.members), dst)
      ensures reject.modified == (HasName(old(members), dst) || old(reject.modified))
      ensures modified == (ok || HasName(old(members), dst) || old(modified))
      ensures Bag(members) + Bag(reject.members) == old(Bag(members)) + old(Bag(reject.members)) <==>
              !(HasName(old(members), dst) && HasName(old(reject.members), dst))
    {
      RenameExactly(members, reject.members, src, dst);
      RemoveTo(dst, reject);
      var i := Find(src);
      if i == |members| {
        return false;
      }
      members := members[i := Member(dst, members[i].content)];
      modified := true;
      return true;
    }

    /** `swap` with the member `k` of `reject`: nothing is lost and nothing is copied. */
    method Swap(name: string, reject: ZipRom, k: nat)
      requires reject != this && k < |reject.members|
      modifies this`members, this`modified, reject`members, reject`modified
      ensures modified && reject.modified
      ensures members == RemoveName(old(members), name) + [old(reject.members)[k]]
      ensures reject.members == SwappedOut(old(members), old(reject.members), name, k)
      ensures Bag(members) + Bag(reject.members) == old(Bag(members)) + old(Bag(reject.members))
    {
      ghost var ms, rs := members, reject.members;
      var i := Find(name);
      SwapBag(ms, rs, i, k);
      if i == |members| {
        Insert(reject.members[k].content, reject.members[k].name);
        reject.Erase(k);
        assert members == ms + [rs[k]];
      } else {
        Insert(reject.members[k].content, reject.members[k].name);
        reject.Insert(members[i].content, members[i].name);
        WithoutAppend(ms, rs[k], i);
        WithoutAppend(rs, ms[i], k);
        Erase(i);
        reject.Erase(k);
      }
    }

    /** `size_not_zero` is not 0. */
    method NotEmpty() returns (r: bool)
      ensures r == HasFiles(members)
    {
      r := false;
      var i := 0;
      while i < |members|
        invariant 0 <= i <= |members| && r == exists k :: 0 <= k < i && members[k].content.size > 0
      {
        if members[i].content.size > 0 {
          r := true;
        }
        i := i + 1;
      }
    }

    /** The file on disk holds every member that is not empty. */
    predicate Synced()
      reads this
    {
      modified || (if HasFiles(members) then disk == Some(members) else disk.None? || disk == Some(members))
    }

    /** `save` */
    method Save()
      requires Synced()
      modifies this`modified, this`disk
      ensures !modified && Synced()
    {
      if modified {
        var files := NotEmpty();
        disk := if files then Some(members) else None;
        modified := false;
      }
    }
  }

  predicate HasFiles(ms: seq<Member>) { exists k :: 0 <= k < |ms| && ms[k].content.size > 0 }

  lemma {:induction false} FirstIs(ms: seq<Member>, name: string, i: nat)
    requires i <= |ms| && (i < |ms| ==> ms[i].name == name) && forall k | 0 <= k < i :: ms[k].name != name
    ensures FirstAt(ms, name) == i
  {
    var k := FirstAt(ms, name);
    assert k >= i;
  }

  /** What is not empty is on disk after a save. */
  lemma OnDisk(ms: seq<Member>, disk: Option<seq<Member>>, c: Content)
    requires if HasFiles(ms) then disk == Some(ms) else disk.None? || disk == Some(ms)
    requires c.size > 0
    ensures Bag(if disk.Some? then disk.value else [])[c] == Bag(ms)[c]
  {
    if disk.None? && c in Bag(ms) {
      var i := BagIn(ms, c);
    }
  }

  // ----- what an operation does to both zips

  /** The reject zip after the member of that name, if any, was moved there. */
  function Rejected(ms: seq<Member>, rs: seq<Member>, name: string): seq<Member> {
    if HasName(ms, name) then RemoveName(rs, name) + [Member(name, Get(ms, name).value)] else rs
  }

  /** The reject zip after a member, if there is one, was moved there under another name. */
  function Moved(ms: seq<Member>, rs: seq<Member>, src: string, dst: string): seq<Member> {
    if HasName(ms, src) then RemoveName(rs, dst) + [Member(dst, Get(ms, src).value)] else RemoveName(rs, dst)
  }

  /** What a rejected member overwrites: the rejected member of the same name. */
  function Overwritten(ms: seq<Member>, rs: seq<Member>, name: string): multiset<Content> {
    if HasName(ms, name) then BagAt(rs, name) else multiset{}
  }

  /** The zip after a copy was added under that name. */
  function Added(ms: seq<Member>, name: string, c: Content): seq<Member> {
    RemoveName(ms, name) + [Member(name, c)]
  }

  /** The zip after a member was renamed. */
  function Renamed(ms: seq<Member>, src: string, dst: string): seq<Member> {
    var cleared := RemoveName(ms, dst);
    var i := FirstAt(cleared, src);
    if i < |cleared| then cleared[i := Member(dst, cleared[i].content)] else cleared
  }

  lemma RemoveBag(ms: seq<Member>, name: string)
    ensures Bag(RemoveName(ms, name)) + BagAt(ms, name) == Bag(ms)
  {
    if HasName(ms, name) {
      BagWithout(ms, FirstAt(ms, name));
    }
  }

  lemma Regroup(a: multiset<Content>, b: multiset<Content>, c: multiset<Content>, d: multiset<Content>)
    ensures a + (c + b) + d == (a + b) + (c + d)
  {
  }

  lemma NoneLost(all: multiset<Content>, now: multiset<Content>, lost: multiset<Content>)
    requires all == now + lost
    ensures now == all <==> |lost| == 0
  {
    assert |all| == |now| + |lost|;
  }

  /** `move` keeps every content but that of the rejected member it overwrites: nothing is
      lost exactly if the reject zip has no member of the new name. */
  lemma MoveExactly(ms: seq<Member>, rs: seq<Member>, src: string, dst: string)
    ensures Bag(RemoveName(ms, src)) + Bag(Moved(ms, rs, src, dst)) + BagAt(rs, dst) == Bag(ms) + Bag(rs)
    ensures Bag(RemoveName(ms, src)) + Bag(Moved(ms, rs, src, dst)) == Bag(ms) + Bag(rs) <==> !HasName(rs, dst)
  {
    assert Bag(Moved(ms, rs, src, dst)) == Bag(RemoveName(rs, dst)) + BagAt(ms, src) by {
      if HasName(ms, src) {
        BagAppend(RemoveName(rs, dst), Member(dst, Get(ms, src).value));
      }
    }
    assert Bag(RemoveName(ms, src)) + Bag(Moved(ms, rs, src, dst)) + BagAt(rs, dst) == Bag(ms) + Bag(rs) by {
      RemoveBag(ms, src);
      RemoveBag(rs, dst);
      Regroup(Bag(RemoveName(ms, src)), BagAt(ms, src), Bag(RemoveName(rs, dst)), BagAt(rs, dst));
    }
    NoneLost(Bag(ms) + Bag(rs), Bag(RemoveName(ms, src)) + Bag(Moved(ms, rs, src, dst)), BagAt(rs, dst));
  }

  /** The same for `remove` with a reject zip. */
  lemma RemoveExactly(ms: seq<Member>, rs: seq<Member>, name: string)
    ensures Bag(RemoveName(ms, name)) + Bag(Rejected(ms, rs, name)) + Overwritten(ms, rs, name) == Bag(ms) + Bag(rs)
    ensures Bag(RemoveName(ms, name)) + Bag(Rejected(ms, rs, name)) == Bag(ms) + Bag(rs) <==>
            !(HasName(ms, name) && HasName(rs, name))
  {
    if HasName(ms, name) {
      MoveExactly(ms, rs, name, name);
    }
  }

  /** And for `add`. */
  lemma AddExactly(ms: seq<Member>, rs: seq<Member>, dst: string, c: Content)
    ensures Bag(Added(ms, dst, c)) + Bag(Rejected(ms, rs, dst)) + Overwritten(ms, rs, dst) == Bag(ms) + Bag(rs) + multiset{c}
    ensures Bag(Added(ms, dst, c)) + Bag(Rejected(ms, rs, dst)) == Bag(ms) + Bag(rs) + multiset{c} <==>
            !(HasName(ms, dst) && HasName(rs, dst))
  {
    RemoveExactly(ms, rs, dst);
    BagAppend(RemoveName(ms, dst), Member(dst, c));
    NoneLost(Bag(ms) + Bag(rs) + multiset{c}, Bag(Added(ms, dst, c)) + Bag(Rejected(ms, rs, dst)), Overwritten(ms, rs, dst));
  }

  /** And for `rename`, whether or not it finds the old name. */
  lemma RenameExactly(ms: seq<Member>, rs: seq<Member>, src: string, dst: string)
    ensures Bag(Renamed(ms, src, dst)) + Bag(Rejected(ms, rs, dst)) + Overwritten(ms, rs, dst) == Bag(ms) + Bag(rs)
    ensures Bag(Renamed(ms, src, dst)) + Bag(Rejected(ms, rs, dst)) == Bag(ms) + Bag(rs) <==>
            !(HasName(ms, dst) && HasName(rs, dst))
  {
    RemoveExactly(ms, rs, dst);
    var cleared := RemoveName(ms, dst);
    var i := FirstAt(cleared, src);
    if i < |cleared| {
      BagReplace(cleared, i, Member(dst, cleared[i].content));
    }
  }

  /** Moving a member away touches no other name, in either zip. */
  lemma MoveEffect(ms: seq<Member>, rs: seq<Member>, name: string)
    requires DistinctNames(ms)
    ensures DistinctNames(RemoveName(ms, name))
    ensures forall n :: Get(RemoveName(ms, name), n) == if n == name then None else Get(ms, n)
    ensures forall n | n != name :: Get(Rejected(ms, rs, name), n) == Get(rs, n)
  {
    if HasName(ms, name) {
      var i := FirstAt(ms, name);
      var m := Member(name, Get(ms, name).value);
      forall n
        ensures DistinctNames(Without(ms, i)) && Get(Without(ms, i), n) == if n == name then None else Get(ms, n)
      {
        GetWithout(ms, i, n);
      }
      forall n | n != name
        ensures Get(RemoveName(rs, name) + [m], n) == Get(rs, n)
      {
        OtherAppend(RemoveName(rs, name), m, n);
        if HasName(rs, name) {
          OtherWithout(rs, FirstAt(rs, name), n);
        }
      }
    }
  }

  /** Every member of another name stays in the reject zip, and names stay distinct. */
  ghost predicate KeepsOthers(rs: seq<Member>, ts: seq<Member>, name: string) {
    && (forall n | n != name :: Get(ts, n) == Get(rs, n))
    && (forall m | m in rs && m.name != name :: m in ts)
    && (DistinctNames(rs) ==> DistinctNames(ts))
  }

  lemma InWithout(rs: seq<Member>, i: nat, m: Member)
    requires i < |rs| && m in rs && m.name != rs[i].name
    ensures m in Without(rs, i)
  {
    var k :| 0 <= k < |rs| && rs[k] == m;
    assert Without(rs, i)[if k < i then k else k - 1] == m;
  }

  /** The member that is moved away is in the reject zip, and so is every other one there. */
  lemma RejectedKeeps(ms: seq<Member>, rs: seq<Member>, name: string)
    requires DistinctNames(ms)
    ensures KeepsOthers(rs, Rejected(ms, rs, name), name)
    ensures HasName(ms, name) ==> Member(name, Get(ms, name).value) in Rejected(ms, rs, name)
  {
    MoveEffect(ms, rs, name);
    if HasName(ms, name) {
      var c := Get(ms, name).value;
      var ts := RemoveName(rs, name) + [Member(name, c)];
      forall m | m in rs && m.name != name
        ensures m in ts
      {
        if HasName(rs, name) {
          InWithout(rs, FirstAt(rs, name), m);
        }
        assert m in RemoveName(rs, name);
      }
      if DistinctNames(rs) {
        AddEffect(rs, [], name, c);
      }
      assert ts[|ts| - 1] == Member(name, c);
    }
  }

  lemma AddEffect(ms: seq<Member>, rs: seq<Member>, name: string, c: Content)
    requires DistinctNames(ms)
    ensures DistinctNames(Added(ms, name, c))
    ensures forall n :: Get(Added(ms, name, c), n) == if n == name then Some(c) else Get(ms, n)
    ensures forall n | n != name :: Get(Rejected(ms, rs, name), n) == Get(rs, n)
  {
    MoveEffect(ms, rs, name);
    var cleared := RemoveName(ms, name);
    assert Get(cleared, name).None?;
    forall n
      ensures DistinctNames(cleared + [Member(name, c)])
      ensures Get(cleared + [Member(name, c)], n) == if n == name then Some(c) else Get(ms, n)
    {
      GetAppend(cleared, Member(name, c), n);
    }
  }

  lemma RenameEffect(ms: seq<Member>, rs: seq<Member>, src: string, dst: string)
    requires DistinctNames(ms) && src != dst && HasName(ms, src)
    ensures DistinctNames(Renamed(ms, src, dst)) && HasName(RemoveName(ms, dst), src)
    ensures forall n :: Get(Renamed(ms, src, dst), n) == if n == dst then Get(ms, src) else if n == src then None else Get(ms, n)
    ensures forall n | n != dst :: Get(Rejected(ms, rs, dst), n) == Get(rs, n)
  {
    MoveEffect(ms, rs, dst);
    var cleared := RemoveName(ms, dst);
    assert Get(cleared, src) == Get(ms, src) && Get(cleared, dst).None?;
    var i := FirstAt(cleared, src);
    var ns := cleared[i := Member(dst, cleared[i].content)];
    forall n
      ensures DistinctNames(ns)
      ensures Get(ns, n) == if n == dst then Get(ms, src) else if n == src then None else Get(ms, n)
    {
      GetRenamed(cleared, i, dst, n);
    }
  }

  /** The zips after `swap`. */
  function SwappedOut(ms: seq<Member>, rs: seq<Member>, name: string, k: nat): seq<Member>
    requires k < |rs|
  {
    if HasName(ms, name) then Without(rs, k) + [ms[FirstAt(ms, name)]] else Without(rs, k)
  }

  /** A rejected member changes places with the member of its name, or comes back: every
      other name is as it was in both zips. */
  lemma SwapEffect(ms: seq<Member>, rs: seq<Member>, k: nat)
    requires DistinctNames(ms) && k < |rs|
    ensures var name, ns := rs[k].name, RemoveName(ms, rs[k].name) + [rs[k]];
            && DistinctNames(ns)
            && (forall n :: Get(ns, n) == if n == name then Some(rs[k].content) else Get(ms, n))
            && (forall n | n != name :: Get(SwappedOut(ms, rs, name, k), n) == Get(rs, n))
            && Bag(ns) + Bag(SwappedOut(ms, rs, name, k)) == Bag(ms) + Bag(rs)
  {
    var name := rs[k].name;
    AddEffect(ms, rs, name, rs[k].content);
    assert Added(ms, name, rs[k].content) == RemoveName(ms, name) + [rs[k]];
    SwapBag(ms, rs, FirstAt(ms, name), k);
    forall n | n != name
      ensures Get(SwappedOut(ms, rs, name, k), n) == Get(rs, n)
    {
      OtherWithout(rs, k, n);
      if HasName(ms, name) {
        OtherAppend(Without(rs, k), ms[FirstAt(ms, name)], n);
      }
    }
  }

  lemma SwapKeeps(ms: seq<Member>, rs: seq<Member>, k: nat)
    requires DistinctNames(ms) && k < |rs|
    ensures var name := rs[k].name;
            && KeepsOthers(rs, SwappedOut(ms, rs, name, k), name)
            && (HasName(ms, name) ==> Member(name, Get(ms, name).value) in SwappedOut(ms, rs, name, k))
  {
    var name := rs[k].name;
    var ts := SwappedOut(ms, rs, name, k);
    SwapEffect(ms, rs, k);
    forall m | m in rs && m.name != name
      ensures m in ts
    {
      InWithout(rs, k, m);
    }
    if DistinctNames(rs) {
      GetWithout(rs, k, name);
      if HasName(ms, name) {
        GetAppend(Without(rs, k), ms[FirstAt(ms, name)], name);
      }
    }
    if HasName(ms, name) {
      assert ts[|ts| - 1] == ms[FirstAt(ms, name)] == Member(name, Get(ms, name).value);
    }
  }
}
