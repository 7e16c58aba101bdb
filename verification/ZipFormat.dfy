/** The records of a zip file, as zip.cc:472-546 and 628-774 check and write them: local
    headers, data descriptors, the central directory and its end record (sections 4.3.7,
    4.3.9, 4.3.12 and 4.3.16 of APPNOTE.TXT). */
module ZipFormat {
  import opened Wrappers
  import opened Endian

  const L_SIGNATURE := 0x04034b50
  const C_SIGNATURE := 0x02014b50
  const E_SIGNATURE := 0x06054b50
  const D_SIGNATURE := 0x08074b50
  const LO_FIXED := 30
  const CO_FIXED := 46
  const EO_FIXED := 22
  const DO_FIXED := 16

  /** `zip_entry`: each length field together with the bytes it counts. */
  datatype Entry = Entry(
    versionMadeBy: nat, hostOs: nat, versionNeeded: nat, osNeeded: nat, flags: nat, compression: nat,
    time: nat, date: nat, crc: nat, compressedSize: nat, uncompressedSize: nat,
    internalAttrib: nat, externalAttrib: nat, offset: nat,
    name: seq<Byte>, localExtra: seq<Byte>, centralExtra: seq<Byte>, comment: seq<Byte>,
    data: Option<seq<Byte>>)

  // ----- bit 3 of the flags: sizes and crc in a data descriptor

  predicate HasDescriptor(flags: nat) { flags / 8 % 2 == 1 }

  function ClearDescriptor(flags: nat): (r: nat)
    ensures !HasDescriptor(r) && r <= flags
    ensures !HasDescriptor(flags) ==> r == flags
  {
    if HasDescriptor(flags) then flags - 8 else flags
  }

  // ----- writing

  /** The fields of a record stand behind a quantifier over one of these, so that proofs
      that only pass records on do not look into them. */
  predicate LocalAsked(k: nat) { true }

  predicate CentAsked(k: nat) { true }

  predicate EndAsked(k: nat) { true }

  predicate IndexAsked(i: nat) { true }

  function Data(e: Entry): seq<Byte> { if e.data.Some? then e.data.value else [] }

  function LocalSize(e: Entry): nat {
    LO_FIXED + |e.name| + |e.localExtra| + |Data(e)|
  }

  function CentSize(e: Entry): nat {
    CO_FIXED + |e.name| + |e.centralExtra| + |e.comment|
  }

  /** A local header of `e` at `p`, descriptor bit clear. */
  ghost predicate LocalHeader(f: seq<Byte>, p: nat, e: Entry)
    requires p + LO_FIXED <= |f|
  {
    && Read32(f, p) == L_SIGNATURE
    && f[p + 4] == Low8(e.versionNeeded)
    && f[p + 5] == Low8(e.osNeeded)
    && Read16(f, p + 6) == Low16(ClearDescriptor(e.flags))
    && Read16(f, p + 8) == Low16(e.compression)
    && Read16(f, p + 10) == Low16(e.time)
    && Read16(f, p + 12) == Low16(e.date)
    && Read32(f, p + 14) == Low32(e.crc)
    && Read32(f, p + 18) == Low32(e.compressedSize)
    && Read32(f, p + 22) == Low32(e.uncompressedSize)
    && Read16(f, p + 26) == Low16(|e.name|)
    && Read16(f, p + 28) == Low16(|e.localExtra|)
  }

  /** The whole local record of `e` at `p`. */
  ghost predicate LocalAt(f: seq<Byte>, p: nat, e: Entry) {
    && p + LocalSize(e) <= |f|
    && forall k {:trigger LocalAsked(k)} :: LocalAsked(k) ==>
         LocalHeader(f, p, e) && f[p + LO_FIXED..p + LocalSize(e)] == e.name + e.localExtra + Data(e)
  }

  /** A central directory header of `e` at `p`, its local record at `start`. */
  ghost predicate CentHeader(f: seq<Byte>, p: nat, e: Entry, start: nat)
    requires p + CO_FIXED <= |f|
  {
    CentStamp(f, p, e) && CentSizes(f, p, e, start)
  }

  ghost predicate CentStamp(f: seq<Byte>, p: nat, e: Entry)
    requires p + CO_FIXED <= |f|
  {
    && Read32(f, p) == C_SIGNATURE
    && f[p + 4] == Low8(e.versionMadeBy)
    && f[p + 5] == Low8(e.hostOs)
    && f[p + 6] == Low8(e.versionNeeded)
    && f[p + 7] == Low8(e.osNeeded)
    && Read16(f, p + 8) == Low16(ClearDescriptor(e.flags))
    && Read16(f, p + 10) == Low16(e.compression)
    && Read16(f, p + 12) == Low16(e.time)
    && Read16(f, p + 14) == Low16(e.date)
  }

  ghost predicate CentSizes(f: seq<Byte>, p: nat, e: Entry, start: nat)
    requires p + CO_FIXED <= |f|
  {
    && Read32(f, p + 16) == Low32(e.crc)
    && Read32(f, p + 20) == Low32(e.compressedSize)
    && Read32(f, p + 24) == Low32(e.uncompressedSize)
    && Read16(f, p + 28) == Low16(|e.name|)
    && Read16(f, p + 30) == Low16(|e.centralExtra|)
    && Read16(f, p + 32) == Low16(|e.comment|)
    && Read16(f, p + 34) == 0
    && Read16(f, p + 36) == Low16(e.internalAttrib)
    && Read32(f, p + 38) == Low32(e.externalAttrib)
    && Read32(f, p + 42) == Low32(start)
  }

  ghost predicate CentAt(f: seq<Byte>, p: nat, e: Entry, start: nat) {
    && p + CentSize(e) <= |f|
    && forall k {:trigger CentAsked(k)} :: CentAsked(k) ==>
         CentHeader(f, p, e, start) && f[p + CO_FIXED..p + CentSize(e)] == e.name + e.centralExtra + e.comment
  }

  /** The end record at `p`, of `count` entries whose directory is `f[start..p]`. */
  ghost predicate EndAt(f: seq<Byte>, p: nat, count: nat, start: nat, comment: seq<Byte>) {
    && start <= p && p + EO_FIXED + |comment| <= |f|
    && forall k {:trigger EndAsked(k)} :: EndAsked(k) ==>
         EndHeader(f, p, count, start, comment) && f[p + EO_FIXED..p + EO_FIXED + |comment|] == comment
  }

  ghost predicate EndHeader(f: seq<Byte>, p: nat, count: nat, start: nat, comment: seq<Byte>)
    requires start <= p && p + EO_FIXED <= |f|
  {
    && Read32(f, p) == E_SIGNATURE
    && Read16(f, p + 4) == 0 && Read16(f, p + 6) == 0
    && Read16(f, p + 8) == Low16(count) && Read16(f, p + 10) == Low16(count)
    && Read32(f, p + 12) == Low32(p - start)
    && Read32(f, p + 16) == Low32(start)
    && Read16(f, p + 20) == Low16(|comment|)
  }

  /** Where the local record of entry `i` starts when there are no holes. */
  function LocalPos(es: seq<Entry>, i: nat): nat
    requires i <= |es|
  {
    if i == 0 then 0 else LocalPos(es, i - 1) + LocalSize(es[i - 1])
  }

  /** Where the directory header of entry `i` starts, in a directory that starts at `base`. */
  function CentPos(es: seq<Entry>, base: nat, i: nat): nat
    requires i <= |es|
  {
    if i == 0 then base else CentPos(es, base, i - 1) + CentSize(es[i - 1])
  }

  /** The local records of the first `n` entries, right behind each other. */
  ghost predicate Locals(f: seq<Byte>, es: seq<Entry>, n: nat) {
    n <= |es| && forall i: nat {:trigger IndexAsked(i)} :: IndexAsked(i) && i < n ==> LocalAt(f, LocalPos(es, i), es[i])
  }

  /** The directory headers of the first `n` entries, from `base` on. */
  ghost predicate Cents(f: seq<Byte>, es: seq<Entry>, base: nat, n: nat) {
    n <= |es| && forall i: nat {:trigger IndexAsked(i)} :: IndexAsked(i) && i < n ==>
      CentAt(f, CentPos(es, base, i), es[i], LocalPos(es, i))
  }

  /** A zip file of these entries: the local records, the directory from `start` on and the
      end record, right behind each other. */
  ghost predicate Archive(f: seq<Byte>, es: seq<Entry>, comment: seq<Byte>, start: nat) {
    var end := CentPos(es, start, |es|);
    && start == LocalPos(es, |es|)
    && |f| == end + EO_FIXED + |comment|
    && Locals(f, es, |es|)
    && Cents(f, es, start, |es|)
    && EndAt(f, end, |es|, start, comment)
  }

  /** Records stay where they are when the file grows. */
  lemma LocalGrows(f: seq<Byte>, g: seq<Byte>, p: nat, e: Entry)
    requires f <= g && LocalAt(f, p, e)
    ensures LocalAt(g, p, e)
  {
    assert LocalAsked(0);
    assert g[p + LO_FIXED..p + LocalSize(e)] == f[p + LO_FIXED..p + LocalSize(e)];
  }

  lemma CentGrows(f: seq<Byte>, g: seq<Byte>, p: nat, e: Entry, start: nat)
    requires f <= g && CentAt(f, p, e, start)
    ensures CentAt(g, p, e, start)
  {
    assert CentAsked(0);
    assert g[p + CO_FIXED..p + CentSize(e)] == f[p + CO_FIXED..p + CentSize(e)];
  }

  lemma LocalsGrow(f: seq<Byte>, g: seq<Byte>, es: seq<Entry>, n: nat)
    requires f <= g && Locals(f, es, n)
    ensures Locals(g, es, n)
  {
    forall i: nat {:trigger IndexAsked(i)} | IndexAsked(i) && i < n
      ensures LocalAt(g, LocalPos(es, i), es[i])
    {
      LocalGrows(f, g, LocalPos(es, i), es[i]);
    }
  }

  lemma CentsGrow(f: seq<Byte>, g: seq<Byte>, es: seq<Entry>, base: nat, n: nat)
    requires f <= g && Cents(f, es, base, n)
    ensures Cents(g, es, base, n)
  {
    forall i: nat {:trigger IndexAsked(i)} | IndexAsked(i) && i < n
      ensures CentAt(g, CentPos(es, base, i), es[i], LocalPos(es, i))
    {
      CentGrows(f, g, CentPos(es, base, i), es[i], LocalPos(es, i));
    }
  }

  /** One more record. */
  lemma LocalsSnoc(f: seq<Byte>, es: seq<Entry>, n: nat)
    requires n < |es| && Locals(f, es, n) && LocalAt(f, LocalPos(es, n), es[n])
    ensures Locals(f, es, n + 1)
  {
  }

  lemma CentsSnoc(f: seq<Byte>, es: seq<Entry>, base: nat, n: nat)
    requires n < |es| && Cents(f, es, base, n) && CentAt(f, CentPos(es, base, n), es[n], LocalPos(es, n))
    ensures Cents(f, es, base, n + 1)
  {
  }

  lemma LocalsAt(f: seq<Byte>, es: seq<Entry>, n: nat, i: nat)
    requires i < n && Locals(f, es, n)
    ensures LocalAt(f, LocalPos(es, i), es[i])
  {
    assert IndexAsked(i);
  }

  lemma CentsAt(f: seq<Byte>, es: seq<Entry>, base: nat, n: nat, i: nat)
    requires i < n && Cents(f, es, base, n)
    ensures CentAt(f, CentPos(es, base, i), es[i], LocalPos(es, i))
  {
    assert IndexAsked(i);
  }

  /** The three parts of a zip file, written one behind the other. */
  lemma ArchiveOf(f: seq<Byte>, g: seq<Byte>, h: seq<Byte>, es: seq<Entry>, comment: seq<Byte>)
    requires Locals(f, es, |es|) && |f| == LocalPos(es, |es|) && f <= g <= h
    requires Cents(g, es, |f|, |es|) && |g| == CentPos(es, |f|, |es|)
    requires EndAt(h, |g|, |es|, |f|, comment) && |h| == |g| + EO_FIXED + |comment|
    ensures Archive(h, es, comment, |f|)
  {
    LocalsGrow(f, h, es, |es|);
    CentsGrow(g, h, es, |f|, |es|);
  }

  // ----- reading

  /** The lengths that a directory header declares, after its fixed part. */
  function DeclaredSize(f: seq<Byte>, p: nat): nat
    requires p + CO_FIXED <= |f|
  {
    Read16(f, p + 28) + Read16(f, p + 30) + Read16(f, p + 32)
  }

  /** `load_cent` can read an entry here: signature, name, and enough bytes. */
  predicate CentFits(f: seq<Byte>, p: nat) {
    && p + CO_FIXED <= |f|
    && Read32(f, p) == C_SIGNATURE
    && Read16(f, p + 28) != 0
    && p + CO_FIXED + DeclaredSize(f, p) <= |f|
  }

  /** The entry that `load_cent` reads here. */
  function CentEntry(f: seq<Byte>, p: nat): Entry
    requires CentFits(f, p)
  {
    var q := p + CO_FIXED;
    var r := q + Read16(f, p + 28);
    var s := r + Read16(f, p + 30);
    var t := s + Read16(f, p + 32);
    Entry(f[p + 4], f[p + 5], f[p + 6], f[p + 7], Read16(f, p + 8), Read16(f, p + 10),
          Read16(f, p + 12), Read16(f, p + 14), Read32(f, p + 16), Read32(f, p + 20), Read32(f, p + 24),
          Read16(f, p + 36), Read32(f, p + 38), Read32(f, p + 42),
          f[q..r], [], f[r..s], f[s..t], None)
  }

  /** `check_local`: the header agrees with the directory; the length of the local extra
      field is not compared, because no entry of a directory has one yet. */
  predicate CheckLocal(f: seq<Byte>, p: nat, e: Entry, pedantic: bool)
    requires p + LO_FIXED <= |f|
  {
    && Read32(f, p) == L_SIGNATURE
    && e.flags == Read16(f, p + 6)
    && e.compression == Read16(f, p + 8)
    && CheckSize(Read32(f, p + 14), e.crc, e.flags, pedantic)
    && CheckSize(Read32(f, p + 18), e.compressedSize, e.flags, pedantic)
    && CheckSize(Read32(f, p + 22), e.uncompressedSize, e.flags, pedantic)
    && |e.name| == Read16(f, p + 26)
    && (e.localExtra == [] || |e.localExtra| == Read16(f, p + 28))
  }

  /** One of the three fields that may be zero if a data descriptor follows. */
  predicate CheckSize(read: nat, known: nat, flags: nat, pedantic: bool) {
    if !HasDescriptor(flags) then read == known
    else read == 0 || (!pedantic && read == known)
  }

  /** `check_descriptor` from the crc on; the sizes may be zero. */
  predicate CheckDescriptor(f: seq<Byte>, p: nat, e: Entry)
    requires p + DO_FIXED - 4 <= |f|
  {
    && Read32(f, p) == e.crc
    && (Read32(f, p + 4) == e.compressedSize || Read32(f, p + 4) == 0)
    && (Read32(f, p + 8) == e.uncompressedSize || Read32(f, p + 8) == 0)
  }

  datatype Record = Invalid | Record(data: seq<Byte>, end: nat)

  /** The data descriptor behind the data: without its signature if exactly twelve bytes
      are left before `limit`. */
  function Descriptor(f: seq<Byte>, e: Entry, data: seq<Byte>, p: nat, limit: nat): (r: Record)
    requires p <= limit <= |f|
    ensures r.Record? ==> r.data == data && p <= r.end <= limit
  {
    if limit - p == DO_FIXED - 4 then
      if CheckDescriptor(f, p, e) then Record(data, limit) else Invalid
    else if p + DO_FIXED <= limit && Read32(f, p) == D_SIGNATURE && CheckDescriptor(f, p + 4, e) then Record(data, p + DO_FIXED)
    else Invalid
  }

  /** The local record of `e`, which has to end at `limit` or before: the data and where
      the record ends. */
  function LocalRecord(f: seq<Byte>, e: Entry, limit: nat, pedantic: bool): (r: Record)
    ensures r.Record? ==> limit <= |f| && |r.data| == e.compressedSize
    ensures r.Record? ==> e.offset + LO_FIXED + |e.name| + |r.data| <= r.end <= limit
  {
    if |f| < limit || limit < e.offset + LO_FIXED || !CheckLocal(f, e.offset, e, pedantic) then Invalid
    else
      var p := e.offset + LO_FIXED + |e.name| + Read16(f, e.offset + 28);
      var q := p + e.compressedSize;
      if limit < q then Invalid
      else if HasDescriptor(e.flags) then Descriptor(f, e, f[p..q], q, limit)
      else Record(f[p..q], q)
  }

  /** The least offset from `from` on. */
  function Least(es: seq<Entry>, from: nat): Option<nat> {
    if es == [] then None
    else
      var r := Least(es[1..], from);
      if es[0].offset < from || (r.Some? && r.value <= es[0].offset) then r else Some(es[0].offset)
  }

  lemma {:induction false} LeastBounds(es: seq<Entry>, from: nat)
    ensures var r := Least(es, from);
            forall i | 0 <= i < |es| :: es[i].offset >= from ==> r.Some? && r.value <= es[i].offset
    ensures var r := Least(es, from); r.Some? ==> r.value >= from
  {
    if es != [] {
      LeastBounds(es[1..], from);
      assert forall i | 1 <= i < |es| :: es[i] == es[1..][i - 1];
    }
  }

  /** Some entry has the least offset. */
  lemma {:induction false} LeastIndex(es: seq<Entry>, from: nat) returns (i: nat)
    requires Least(es, from).Some?
    ensures i < |es| && es[i].offset == Least(es, from).value
  {
    var r := Least(es[1..], from);
    if es[0].offset < from || (r.Some? && r.value <= es[0].offset) {
      i := LeastIndex(es[1..], from);
      i := i + 1;
    } else {
      i := 0;
    }
  }

  /** Where the record of an entry has to end: at the next one or at the directory. */
  function Limit(es: seq<Entry>, e: Entry, start: nat): nat {
    var r := Least(es, e.offset + 1);
    if r.Some? then r.value else start
  }

  /** The local record of entry `i`. */
  function RecordOf(f: seq<Byte>, es: seq<Entry>, i: nat, start: nat, pedantic: bool): Record
    requires i < |es|
  {
    LocalRecord(f, es[i], Limit(es, es[i], start), pedantic)
  }

  predicate Distinct(es: seq<Entry>) {
    forall i, j | 0 <= i < j < |es| :: es[i].offset != es[j].offset
  }

  predicate Below(es: seq<Entry>, start: nat) {
    forall i | 0 <= i < |es| :: es[i].offset < start
  }

  /** The limits depend on the offsets only. */
  lemma {:induction false} LeastSame(es: seq<Entry>, fs: seq<Entry>, from: nat)
    requires |es| == |fs| && forall i | 0 <= i < |es| :: es[i].offset == fs[i].offset
    ensures Least(es, from) == Least(fs, from)
    decreases |es|
  {
    if es != [] {
      LeastSame(es[1..], fs[1..], from);
    }
  }

  /** An entry's limit is above its offset; it is another entry's offset or `start`. */
  lemma LimitAbove(es: seq<Entry>, i: nat, start: nat)
    requires i < |es| && Below(es, start)
    ensures es[i].offset < Limit(es, es[i], start) <= start
    ensures forall j | 0 <= j < |es| :: es[j].offset > es[i].offset ==> Limit(es, es[i], start) <= es[j].offset
    ensures Limit(es, es[i], start) == start || exists j :: 0 <= j < |es| && es[j].offset == Limit(es, es[i], start)
  {
    LeastBounds(es, es[i].offset + 1);
    if Least(es, es[i].offset + 1).Some? {
      var k := LeastIndex(es, es[i].offset + 1);
    }
  }
}
