/** The class `zip` (zip.cc:776-1214) over the one file at its path. */
module ZipFile {
  import opened Wrappers
  import opened Endian
  import opened ZipFormat
  import opened ZipSearch
  import opened ZipDirectory
  import opened ZipEntry
  import opened ZipLoad

  class Zip {
    var isOpen: bool
    var isRead: bool
    var isModify: bool
    var centStart: nat
    var comment: seq<Byte>
    var entries: seq<Entry>
    /** The bytes of the file at the path, if it exists. */
    var disk: Option<seq<Byte>>
    const pedantic: bool

    constructor (disk: Option<seq<Byte>>, pedantic: bool)
      ensures !isOpen && !isRead && !isModify && entries == [] && comment == []
      ensures this.disk == disk && this.pedantic == pedantic
    {
      isOpen, isRead, isModify, centStart, comment, entries := false, false, false, 0, [], [];
      this.disk, this.pedantic := disk, pedantic;
    }

    /** `create` */
    method Create()
      requires !isOpen
      modifies this`isOpen, this`isRead, this`isModify, this`centStart, this`comment
      ensures isOpen && isRead && !isModify && centStart == 0 && comment == []
    {
      centStart, comment := 0, [];
      isRead, isOpen, isModify := true, true, false;
    }

    /** The headers of `open`, as far as they go: where they end, or none for an invalid one. */
    method ReadHeaders(data: seq<Byte>) returns (end: Option<nat>, ghost es: seq<Entry>)
      modifies this`entries
      ensures entries == old(entries) + es && Headers(ReaderOf(data), es)
      ensures ReaderOf(data)(CentPos(es, 0, |es|)).None?
      ensures end.Some? ==> end.value == CentPos(es, 0, |es|) && end.value + 4 <= |data|
      ensures end.None? ==> CentPos(es, 0, |es|) + 4 > |data| || Read32(data, CentPos(es, 0, |es|)) == C_SIGNATURE
    {
      var dataPos := 0;
      es := [];
      ghost var read := ReaderOf(data);
      while dataPos + 4 <= |data| && Read32(data, dataPos) == C_SIGNATURE
        invariant entries == old(entries) + es && Headers(read, es) && dataPos == CentPos(es, 0, |es|)
        decreases |data| - dataPos
      {
        var e, skip := LoadCent(data, dataPos);
        if e.None? {
          return None, es;
        }
        entries := entries + [e.value];
        HeadersSnoc(read, es, es + [e.value]);
        es := es + [e.value];
        dataPos := dataPos + skip;
      }
      if dataPos + 4 > |data| {
        return None, es;
      }
      NoHeaderAtEnd(data, dataPos);
      return Some(dataPos), es;
    }

    /** The directory in `data`, the end of a file of `length` bytes. */
    method ReadDirectory(data: seq<Byte>, length: nat) returns (ok: bool)
      requires |data| <= length
      modifies this`entries, this`centStart, this`comment
      ensures forall d: Dir :: Directory(data, d, pedantic) && d.start == length - |data| ==>
                ok && entries == old(entries) + d.entries && centStart == d.start && comment == d.comment
      ensures ok ==> exists d: Dir :: Directory(data, d, pedantic) && d.start == length - |data|
    {
      var end, es := ReadHeaders(data);
      forall d: Dir | Directory(data, d, pedantic)
        ensures d.entries == es
      {
        HeadersOf(data, es, d, pedantic);
      }
      if end.None? {
        return false;
      }
      var dataPos := end.value;
      if dataPos + EO_FIXED > |data| || Read32(data, dataPos) != E_SIGNATURE {
        return false;
      }
      centStart := Read32(data, dataPos + 16);
      var commentLength := Read16(data, dataPos + 20);
      dataPos := dataPos + EO_FIXED;
      if centStart != length - |data| || dataPos + commentLength > |data| {
        return false;
      }
      comment := data[dataPos..dataPos + commentLength];
      dataPos := dataPos + commentLength;
      if pedantic && dataPos != |data| {
        return false;
      }
      ghost var d := Dir(es, centStart, comment);
      assert Directory(data, d, pedantic);
      return true;
    }

    /** The directory of a file that exists. */
    method OpenFile(f: seq<Byte>) returns (ok: bool)
      modifies this`entries, this`centStart, this`comment
      ensures ok <==> exists d: Dir :: Opens(f, d, pedantic)
      ensures forall d: Dir :: Opens(f, d, pedantic) ==>
                entries == old(entries) + d.entries && centStart == d.start && comment == d.comment
    {
      var data := CentRead(f);
      if data.None? {
        return false;
      }
      ghost var p: nat :| Found(f, p) && Read32(f, p + 16) < |f| && data.value == f[Read32(f, p + 16)..];
      ok := ReadDirectory(data.value, |f|);
      OpensIff(f, p, pedantic);
    }

    /** `open`: exactly the files that have a directory, and then with that directory. */
    method Open() returns (ok: bool)
      requires !isOpen
      modifies this
      ensures disk == old(disk)
      ensures disk.None? ==> ok && isOpen && isRead && !isModify && centStart == 0 && comment == [] && entries == old(entries)
      ensures disk.Some? ==> (ok <==> exists d: Dir :: Opens(disk.value, d, pedantic))
      ensures disk.Some? ==> forall d: Dir :: Opens(disk.value, d, pedantic) ==>
                entries == old(entries) + d.entries && centStart == d.start && comment == d.comment
      ensures disk.Some? && ok ==> isOpen && !isRead && !isModify && centStart < |disk.value|
    {
      if disk.None? {
        Create();
        return true;
      }
      ok := OpenFile(disk.value);
      if ok {
        isOpen, isRead, isModify := true, false, false;
      }
    }

    /** The loops of `load` that look for the next entry: the first one with the least
        offset from `from` on. */
    method NextEntry(from: nat) returns (found: bool, next: nat)
      ensures !found ==> forall k | 0 <= k < |entries| :: entries[k].offset < from
      ensures found ==> IsNext(entries, from, next)
    {
      found, next := false, 0;
      var i := 0;
      while i < |entries|
        invariant 0 <= i <= |entries|
        invariant !found ==> forall k | 0 <= k < i :: entries[k].offset < from
        invariant found ==> next < |entries| && entries[next].offset >= from
        invariant found ==> forall k | 0 <= k < i :: entries[k].offset >= from ==> entries[next].offset <= entries[k].offset
      {
        if entries[i].offset >= from {
          if !found || entries[i].offset < entries[next].offset {
            found, next := true, i;
          }
        }
        i := i + 1;
      }
    }

    /** The end of the record of an entry: the next offset, or the start of the directory. */
    method EndOffset(e: Entry) returns (endOffset: nat)
      ensures endOffset == Limit(entries, e, centStart)
    {
      var nextNextSet, nextNext := NextEntry(e.offset + 1);
      if nextNextSet {
        LeastAt(entries, e.offset + 1, nextNext);
        endOffset := entries[nextNext].offset;
      } else {
        LeastNone(entries, e.offset + 1);
        endOffset := centStart;
      }
    }

    /** One local record: where it ends. */
    method LoadEntry(f: seq<Byte>, next: nat, ghost es: seq<Entry>, ghost rec: Records, ghost lim: Limits)
      returns (ok: bool, pos: nat)
      requires Walks(f, es, centStart, pedantic, rec, lim)
      requires |entries| == |es| && next < |es| && forall k | 0 <= k < |es| :: entries[k] == es[k].(data := entries[k].data)
      modifies this`entries
      ensures |entries| == |es| && forall k | 0 <= k < |es| && k != next :: entries[k] == old(entries)[k]
      ensures ok ==> pos > es[next].offset && entries[next] == es[next].(data := entries[next].data)
      ensures lim(next) <= |f| ==> ok == rec(next).Record? && (ok ==> pos == rec(next).end && entries[next].data == Some(rec(next).data))
    {
      var e := entries[next];
      assert Asked(next);
      SameRecord(f, es, entries, centStart, pedantic, next);
      var endOffset := EndOffset(e);
      if endOffset < e.offset + LO_FIXED || e.offset + LO_FIXED > |f| {
        return false, 0;
      }
      var loaded;
      ok, loaded, pos := LoadLocal(f, e, endOffset - e.offset - LO_FIXED, pedantic);
      if ok {
        entries := entries[next := loaded];
      }
    }

    /** One turn of the loop of `load`, from `offset` on. */
    method LoadTurn(f: seq<Byte>, offset: nat, ghost es: seq<Entry>, ghost rec: Records, ghost lim: Limits, ghost loaded: set<nat>)
      returns (ok: bool, done: bool, pos: nat, ghost now: set<nat>)
      requires centStart <= |f| && offset < centStart && Walks(f, es, centStart, pedantic, rec, lim)
      requires Below(es, centStart) ==> Fits(rec, lim, es, centStart)
      requires Progress(rec, lim, es, entries, centStart, pedantic, loaded, offset)
      modifies this`entries
      ensures !ok ==> !Complete(rec, lim, es, centStart, pedantic)
      ensures ok ==> Progress(rec, lim, es, entries, centStart, pedantic, now, pos)
      ensures ok && done ==> now == loaded && pos == offset && !pedantic && forall k | 0 <= k < |es| :: es[k].offset < offset
      ensures ok && !done ==> |now| == |loaded| + 1 && pos > offset
    {
      done, pos, now := false, offset, loaded;
      var found, next := NextEntry(offset);
      if !found {
        if pedantic {
          HoleFails(rec, lim, es, entries, centStart, loaded, offset);
          return false, false, pos, now;
        }
        return true, true, pos, now;
      }
      if entries[next].offset >= centStart {
        return false, false, pos, now;
      }
      if entries[next].offset > offset && pedantic {
        HoleFails(rec, lim, es, entries, centStart, loaded, offset);
        return false, false, pos, now;
      }
      ghost var before := entries;
      ok, pos := LoadEntry(f, next, es, rec, lim);
      if ok {
        LoadStep(rec, lim, es, before, entries, centStart, pedantic, loaded, offset, next, pos);
        now := loaded + {next};
      }
    }

    /** The loop of `load` and the checks behind it. */
    method LoadAll(f: seq<Byte>, ghost es: seq<Entry>, ghost rec: Records, ghost lim: Limits) returns (ok: bool)
      requires es == entries && centStart <= |f| && Walks(f, es, centStart, pedantic, rec, lim)
      requires Below(es, centStart) ==> Fits(rec, lim, es, centStart)
      modifies this`entries
      ensures ok == Complete(rec, lim, es, centStart, pedantic)
      ensures ok ==> |entries| == |es| && forall i | 0 <= i < |es| :: rec(i).Record? && entries[i] == es[i].(data := Some(rec(i).data))
    {
      var offset, count := 0, 0;
      ghost var loaded: set<nat> := {};
      while offset < centStart
        invariant Progress(rec, lim, es, entries, centStart, pedantic, loaded, offset) && count == |loaded|
        decreases centStart - offset
      {
        var done, pos;
        ghost var now;
        ok, done, pos, now := LoadTurn(f, offset, es, rec, lim, loaded);
        if !ok {
          return false;
        }
        if done {
          break;
        }
        offset, loaded, count := pos, now, count + 1;
      }
      if offset != centStart && pedantic {
        HoleFails(rec, lim, es, entries, centStart, loaded, offset);
        return false;
      }
      Finished(rec, lim, es, entries, centStart, pedantic, loaded, offset);
      return count == |entries|;
    }

    /** `load`: exactly the directories whose local records are valid, disjoint and below
        the directory, each loaded once from its own record. */
    method Load() returns (ok: bool)
      requires isOpen && !isRead && (disk.Some? ==> centStart <= |disk.value|)
      modifies this`isModify, this`isRead, this`entries
      ensures ok <==> disk.Some? && Loadable(disk.value, old(entries), centStart, pedantic)
      ensures ok ==> isRead && |entries| == |old(entries)|
      ensures ok ==> forall i | 0 <= i < |entries| ::
                var r := RecordsOf(disk.value, old(entries), centStart, pedantic)(i);
                r.Record? && entries[i] == old(entries)[i].(data := Some(r.data))
    {
      isModify := false;
      if disk.None? {
        return false;
      }
      var f := disk.value;
      if Below(entries, centStart) {
        FitsOf(f, entries, centStart, pedantic);
      }
      ok := LoadAll(f, entries, RecordsOf(f, entries, centStart, pedantic), LimitsOf(entries, centStart));
      if ok {
        isRead := true;
      }
    }

    /** `unload` */
    method Unload()
      requires isOpen && isRead && !isModify
      modifies this`isRead, this`entries
      ensures !isRead && |entries| == |old(entries)|
      ensures forall i | 0 <= i < |entries| :: entries[i] == old(entries)[i].(data := None)
    {
      var i := 0;
      while i < |entries|
        invariant 0 <= i <= |entries| == |old(entries)|
        invariant forall k | 0 <= k < |entries| :: entries[k] == if k < i then old(entries)[k].(data := None) else old(entries)[k]
      {
        entries := entries[i := entries[i].(data := None)];
        i := i + 1;
      }
      isRead := false;
    }

    /** `size_not_zero` */
    method SizeNotZero() returns (count: nat)
      ensures count == 0 <==> AllEmpty(entries)
    {
      count := 0;
      var i := 0;
      while i < |entries|
        invariant 0 <= i <= |entries|
        invariant count == 0 <==> forall k | 0 <= k < i :: entries[k].uncompressedSize == 0
      {
        if entries[i].uncompressedSize > 0 {
          count := count + 1;
        }
        i := i + 1;
      }
    }

    /** The local records of all entries. */
    method SaveLocals() returns (ok: bool, f: seq<Byte>)
      requires DataHeld(entries)
      modifies this`entries
      ensures ok <==> Named(old(entries))
      ensures ok ==> Placed(entries, old(entries)) && |f| == LocalPos(old(entries), |entries|) && Locals(f, old(entries), |entries|)
    {
      ghost var es := entries;
      f := [];
      var i := 0;
      while i < |entries|
        invariant 0 <= i <= |entries| == |es| && |f| == LocalPos(es, i) && Locals(f, es, i)
        invariant PlacedTo(entries, es, i) && forall k | 0 <= k < i :: es[k].name != []
      {
        var g, saved;
        ok, g, saved := SaveLocal(entries[i], f);
        if !ok {
          return;
        }
        PlacedStep(entries, es, i);
        entries := entries[i := saved];
        LocalsGrow(f, g, es, i);
        LocalsSnoc(g, es, i);
        f := g;
        i := i + 1;
      }
      ok := true;
    }

    /** The directory headers of all entries, whose offsets are set. */
    method SaveCents(f: seq<Byte>, ghost es: seq<Entry>) returns (ok: bool, g: seq<Byte>)
      requires Placed(entries, es) && Named(es)
      ensures ok && f <= g && |g| == CentPos(es, |f|, |es|) && Cents(g, es, |f|, |es|)
    {
      g := f;
      var i := 0;
      while i < |entries|
        invariant 0 <= i <= |entries| && f <= g && |g| == CentPos(es, |f|, i) && Cents(g, es, |f|, i)
      {
        var h;
        ok, h := SaveCent(entries[i], g);
        if !ok {
          return;
        }
        OffsetApart(h, |g|, es[i], LocalPos(es, i));
        CentsGrow(g, h, es, |f|, i);
        CentsSnoc(h, es, |f|, i);
        g := h;
        i := i + 1;
      }
      ok := true;
    }

    /** `save`: the file holds exactly the entries, or none is left if all are empty. If an
        entry has no name the file stays as it is. */
    method Save() returns (ok: bool)
      requires isOpen && isRead && DataHeld(entries)
      modifies this`isModify, this`centStart, this`entries, this`disk
      ensures !isModify && (ok <==> AllEmpty(old(entries)) || Named(old(entries)))
      ensures AllEmpty(old(entries)) ==> disk == None && centStart == 0 && entries == old(entries)
      ensures !ok ==> disk == old(disk)
      ensures ok && !AllEmpty(old(entries)) ==>
                disk.Some? && Archive(disk.value, old(entries), comment, centStart) && Placed(entries, old(entries))
    {
      isModify := false;
      var count := SizeNotZero();
      if count != 0 {
        ghost var es := entries;
        var f;
        ok, f := SaveLocals();
        if !ok {
          return;
        }
        centStart := |f|;
        var g;
        ok, g := SaveCents(f, es);
        var h := SaveEnd(g, |entries|, centStart, comment);
        ArchiveOf(f, g, h, es, comment);
        disk := Some(h);
      } else {
        ok, centStart, disk := true, 0, None;
      }
    }

    /** `erase` */
    method Erase(i: nat)
      requires isRead && i < |entries|
      modifies this`isModify, this`entries
      ensures isModify && entries == old(entries[..i] + entries[i + 1..])
    {
      isModify := true;
      entries := entries[..i] + entries[i + 1..];
    }

    /** `rename`, without a check for an entry of that name. */
    method Rename(i: nat, name: seq<Byte>)
      requires isRead && i < |entries|
      modifies this`isModify, this`entries
      ensures isModify && entries == old(entries)[i := old(entries)[i].(name := name)]
    {
      isModify := true;
      entries := entries[i := entries[i].(name := name)];
    }

    /** `insert`: a copy of `a`, which may belong to another zip with the file `parent`, as a
        new last entry with the compressed data that `a` has or would have if loaded. */
    method Insert(a: Entry, name: seq<Byte>, parent: Option<seq<Byte>>) returns (ok: bool)
      requires isRead
      modifies this`isModify, this`entries
      ensures !ok ==> entries == old(entries) && isModify == old(isModify)
      ensures ok ==> isModify && |entries| == |old(entries)| + 1 && entries[..|old(entries)|] == old(entries)
      ensures ok ==> Copied(entries[|old(entries)|], a, name)
      ensures ok && a.data.Some? ==> entries[|old(entries)|].data == a.data
      ensures ok && a.data.None? && parent.Some? ==>
                forall limit | 0 <= limit <= |parent.value| && LocalRecord(parent.value, a, limit, pedantic).Record? ::
                  entries[|old(entries)|].data == Some(LocalRecord(parent.value, a, limit, pedantic).data)
    {
      var data := CompressedRead(a, parent, pedantic);
      if data.None? {
        return false;
      }
      var m := MethodGet(a);
      var e := Set(m, name, data.value, a.uncompressedSize, a.crc, a.date, a.time, IsText(a));
      if e.None? {
        return false;
      }
      MethodRoundTrip(a, e.value);
      entries := entries + [e.value];
      isModify := true;
      return true;
    }
  }

  /** A copy keeps the method, the sizes, the crc, the times and the text flag. */
  predicate Copied(e: Entry, a: Entry, name: seq<Byte>) {
    && e.name == name && e.data.Some? && e.compressedSize == |e.data.value|
    && e.uncompressedSize == a.uncompressedSize && e.crc == a.crc && e.date == a.date && e.time == a.time
    && IsText(e) == IsText(a) && MethodGet(e) == MethodGet(a) && e.compression == a.compression && !HasDescriptor(e.flags)
  }

  /** No entry has a file in it (directories have size zero). */
  predicate AllEmpty(es: seq<Entry>) { forall k | 0 <= k < |es| :: es[k].uncompressedSize == 0 }

  predicate Named(es: seq<Entry>) { forall k | 0 <= k < |es| :: es[k].name != [] }

  predicate DataHeld(es: seq<Entry>) {
    forall k | 0 <= k < |es| :: es[k].data.Some? && |es[k].data.value| == es[k].compressedSize
  }

  /** The first `n` entries have the offsets of their local records. */
  ghost predicate PlacedTo(now: seq<Entry>, es: seq<Entry>, n: nat) {
    |now| == |es| && forall k {:trigger now[k]} | 0 <= k < |es| ::
      now[k] == if k < n then es[k].(offset := LocalPos(es, k)) else es[k]
  }

  ghost predicate Placed(now: seq<Entry>, es: seq<Entry>) { PlacedTo(now, es, |es|) }

  lemma PlacedStep(now: seq<Entry>, es: seq<Entry>, n: nat)
    requires PlacedTo(now, es, n) && n < |es|
    ensures now[n] == es[n] && PlacedTo(now[n := es[n].(offset := LocalPos(es, n))], es, n + 1)
  {
  }

  lemma OffsetApart(f: seq<Byte>, p: nat, e: Entry, offset: nat)
    requires CentAt(f, p, e.(offset := offset), offset)
    ensures CentAt(f, p, e, offset) && CentSize(e.(offset := offset)) == CentSize(e)
  {
    assert CentAsked(0);
  }

  lemma LeastAt(es: seq<Entry>, from: nat, next: nat)
    requires IsNext(es, from, next)
    ensures Least(es, from) == Some(es[next].offset)
  {
    LeastBounds(es, from);
    var k := LeastIndex(es, from);
  }

  lemma LeastNone(es: seq<Entry>, from: nat)
    requires forall k | 0 <= k < |es| :: es[k].offset < from
    ensures Least(es, from).None?
  {
    if Least(es, from).Some? {
      LeastBounds(es, from);
      var k := LeastIndex(es, from);
    }
  }

  /** The record of an entry is the same whatever data has been loaded. */
  lemma SameRecord(f: seq<Byte>, es: seq<Entry>, now: seq<Entry>, start: nat, pedantic: bool, i: nat)
    requires |now| == |es| && i < |es| && forall k | 0 <= k < |es| :: now[k] == es[k].(data := now[k].data)
    ensures Limit(now, now[i], start) == Limit(es, es[i], start)
    ensures LocalRecord(f, now[i], Limit(now, now[i], start), pedantic) == RecordsOf(f, es, start, pedantic)(i)
  {
    LeastSame(now, es, es[i].offset + 1);
    RecordSame(f, now[i], es[i], Limit(es, es[i], start), pedantic);
  }
}
