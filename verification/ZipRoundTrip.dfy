/** What a saved zip file gives back when it is opened and loaded. */
module ZipRoundTrip {
  import opened Wrappers
  import opened Endian
  import opened ZipFormat
  import opened ZipSearch
  import opened ZipDirectory
  import opened ZipEntry
  import opened ZipLoad
  import opened ZipFile

  /** The fields fit in the records, and the data is there. */
  predicate InRange(e: Entry) {
    && e.versionMadeBy < 0x100 && e.hostOs < 0x100 && e.versionNeeded < 0x100 && e.osNeeded < 0x100
    && e.flags < 0x1_0000 && e.compression < 0x1_0000 && e.time < 0x1_0000 && e.date < 0x1_0000
    && e.crc < 0x1_0000_0000 && e.compressedSize < 0x1_0000_0000 && e.uncompressedSize < 0x1_0000_0000
    && e.internalAttrib < 0x1_0000 && e.externalAttrib < 0x1_0000_0000
    && 0 < |e.name| < 0x1_0000 && |e.localExtra| < 0x1_0000 && |e.centralExtra| < 0x1_0000 && |e.comment| < 0x1_0000
    && e.data.Some? && |e.data.value| == e.compressedSize
  }

  predicate AllInRange(es: seq<Entry>) { forall i | 0 <= i < |es| :: InRange(es[i]) }

  /** What reading the directory gives back of an entry saved at `at`: only the descriptor
      bit, the offset, the local extra field and the data are not the entry's own. */
  function Listed(e: Entry, at: nat): Entry {
    e.(flags := ClearDescriptor(e.flags), offset := at, localExtra := [], data := None)
  }

  /** And of all entries. */
  ghost predicate Lists(ls: seq<Entry>, es: seq<Entry>) {
    |ls| == |es| && forall i: nat {:trigger Asked(i)} :: Asked(i) && i < |es| ==> ls[i] == Listed(es[i], LocalPos(es, i))
  }

  // ----- one entry

  /** The strings of a directory header, one by one. */
  lemma ThreeParts(s: seq<Byte>, a: seq<Byte>, b: seq<Byte>, c: seq<Byte>)
    requires s == a + b + c
    ensures s[..|a|] == a && s[|a|..|a| + |b|] == b && s[|a| + |b|..|a| + |b| + |c|] == c
  {
  }

  lemma Slice(f: seq<Byte>, a: nat, b: nat, c: nat, d: nat)
    requires a <= b <= |f| && c <= d <= b - a
    ensures f[a..b][c..d] == f[a + c..a + d]
  {
    var s := f[a..b];
    assert forall k | 0 <= k < b - a :: s[k] == f[a + k];
    assert forall k | 0 <= k < d - c :: s[c..d][k] == f[a + c..a + d][k];
  }

  /** Fields that are in range are read back as they were written. */
  lemma StampReads(f: seq<Byte>, p: nat, e: Entry)
    requires p + CO_FIXED <= |f| && CentStamp(f, p, e) && InRange(e)
    ensures Read32(f, p) == C_SIGNATURE
    ensures f[p + 4] == e.versionMadeBy && f[p + 5] == e.hostOs && f[p + 6] == e.versionNeeded && f[p + 7] == e.osNeeded
    ensures Read16(f, p + 8) == ClearDescriptor(e.flags) && Read16(f, p + 10) == e.compression
    ensures Read16(f, p + 12) == e.time && Read16(f, p + 14) == e.date
  {
  }

  lemma SizesRead(f: seq<Byte>, p: nat, e: Entry, at: nat)
    requires p + CO_FIXED <= |f| && CentSizes(f, p, e, at) && InRange(e) && at < 0x1_0000_0000
    ensures Read32(f, p + 16) == e.crc && Read32(f, p + 20) == e.compressedSize && Read32(f, p + 24) == e.uncompressedSize
    ensures Read16(f, p + 28) == |e.name| && Read16(f, p + 30) == |e.centralExtra| && Read16(f, p + 32) == |e.comment|
    ensures Read16(f, p + 36) == e.internalAttrib && Read32(f, p + 38) == e.externalAttrib && Read32(f, p + 42) == at
  {
  }

  /** The strings behind a directory header. */
  lemma StringsRead(f: seq<Byte>, p: nat, e: Entry)
    requires p + CentSize(e) <= |f| && f[p + CO_FIXED..p + CentSize(e)] == e.name + e.centralExtra + e.comment
    ensures var q := p + CO_FIXED;
            var r := q + |e.name|;
            var s := r + |e.centralExtra|;
            f[q..r] == e.name && f[r..s] == e.centralExtra && f[s..s + |e.comment|] == e.comment
  {
    var q, end := p + CO_FIXED, p + CentSize(e);
    ThreeParts(f[q..end], e.name, e.centralExtra, e.comment);
    Slice(f, q, end, 0, |e.name|);
    Slice(f, q, end, |e.name|, |e.name| + |e.centralExtra|);
    Slice(f, q, end, |e.name| + |e.centralExtra|, |e.name| + |e.centralExtra| + |e.comment|);
  }

  lemma ReadBack(f: seq<Byte>, p: nat, e: Entry, at: nat)
    requires CentAt(f, p, e, at) && InRange(e) && at < 0x1_0000_0000
    ensures ReaderOf(f)(p) == Some(Listed(e, at))
  {
    assert CentStamp(f, p, e) && CentSizes(f, p, e, at) by {
      assert CentAsked(0);
    }
    StampReads(f, p, e);
    SizesRead(f, p, e, at);
    assert f[p + CO_FIXED..p + CentSize(e)] == e.name + e.centralExtra + e.comment by {
      assert CentAsked(0);
    }
    StringsRead(f, p, e);
    assert CentFits(f, p);
    assert CentEntry(f, p) == Listed(e, at);
  }

  /** A directory header seen from the start of the directory. */
  lemma CentShifted(f: seq<Byte>, base: nat, q: nat, p: nat, e: Entry, at: nat)
    requires base <= |f| && CentAt(f, q, e, at) && q == base + p
    ensures CentAt(f[base..], p, e, at)
  {
    assert CentAsked(0);
    var g := f[base..];
    assert forall k | 0 <= k < |g| :: g[k] == f[base + k];
    assert g[p + CO_FIXED..p + CentSize(e)] == f[base + p + CO_FIXED..base + p + CentSize(e)];
  }

  lemma LocalReads(f: seq<Byte>, p: nat, e: Entry)
    requires p + LO_FIXED <= |f| && LocalHeader(f, p, e) && InRange(e)
    ensures Read32(f, p) == L_SIGNATURE && Read16(f, p + 6) == ClearDescriptor(e.flags) && Read16(f, p + 8) == e.compression
    ensures Read32(f, p + 14) == e.crc && Read32(f, p + 18) == e.compressedSize && Read32(f, p + 22) == e.uncompressedSize
    ensures Read16(f, p + 26) == |e.name| && Read16(f, p + 28) == |e.localExtra|
  {
  }

  /** The local record of a saved entry loads, with its data, and ends where the next one starts. */
  lemma LoadBack(f: seq<Byte>, e: Entry, at: nat, limit: nat, pedantic: bool)
    requires LocalAt(f, at, e) && InRange(e) && limit == at + LocalSize(e)
    ensures LocalRecord(f, Listed(e, at), limit, pedantic) == Record(e.data.value, limit)
  {
    assert LocalHeader(f, at, e) && f[at + LO_FIXED..limit] == e.name + e.localExtra + e.data.value by {
      assert LocalAsked(0);
    }
    LocalReads(f, at, e);
    var s := f[at + LO_FIXED..limit];
    ThreeParts(s, e.name, e.localExtra, e.data.value);
    var p := at + LO_FIXED + |e.name| + |e.localExtra|;
    Slice(f, at + LO_FIXED, limit, |e.name| + |e.localExtra|, |s|);
    assert CheckLocal(f, at, Listed(e, at), pedantic);
  }

  // ----- all entries

  lemma ListedAt(ls: seq<Entry>, es: seq<Entry>, i: nat)
    requires Lists(ls, es) && i < |es|
    ensures ls[i] == Listed(es[i], LocalPos(es, i))
    ensures CentSize(ls[i]) == CentSize(es[i]) && ls[i].offset == LocalPos(es, i)
  {
    assert Asked(i);
  }

  lemma {:induction false} ListedPos(ls: seq<Entry>, es: seq<Entry>, i: nat)
    requires Lists(ls, es) && i <= |es|
    ensures CentPos(ls, 0, i) == CentPos(es, 0, i)
  {
    if i > 0 {
      ListedPos(ls, es, i - 1);
      ListedAt(ls, es, i - 1);
      CentPosNext(ls, es, i - 1);
    }
  }

  lemma {:induction false} CentPosBase(es: seq<Entry>, base: nat, i: nat)
    requires i <= |es|
    ensures CentPos(es, base, i) == base + CentPos(es, 0, i)
  {
    if i > 0 {
      CentPosBase(es, base, i - 1);
    }
  }

  lemma CentPosNext(ls: seq<Entry>, es: seq<Entry>, i: nat)
    requires i < |ls| == |es| && CentPos(ls, 0, i) == CentPos(es, 0, i) && CentSize(ls[i]) == CentSize(es[i])
    ensures CentPos(ls, 0, i + 1) == CentPos(es, 0, i + 1)
  {
  }

  lemma {:induction false} PosGrows(es: seq<Entry>, i: nat, j: nat)
    requires i < j <= |es|
    ensures LocalPos(es, i) + LocalSize(es[i]) <= LocalPos(es, j)
    decreases j
  {
    if i < j - 1 {
      PosGrows(es, i, j - 1);
    }
  }

  lemma ListedAround(ls: seq<Entry>, es: seq<Entry>, i: nat, k: nat)
    requires Lists(ls, es) && i < |es| && k < |es|
    ensures var at := ls[k].offset;
            if k <= i then at <= LocalPos(es, i) else at >= LocalPos(es, i + 1) > LocalPos(es, i)
  {
    ListedAt(ls, es, k);
    PosGrows(es, i, i + 1);
    if k < i {
      PosGrows(es, k, i);
    } else if k > i + 1 {
      PosGrows(es, i + 1, k);
    }
  }

  lemma LimitFrom(ls: seq<Entry>, i: nat, start: nat, at: nat, next: nat)
    requires i < |ls| && ls[i].offset == at
    requires forall k | 0 <= k < |ls| :: if k <= i then ls[k].offset <= at else ls[k].offset >= next > at
    requires next == if i + 1 < |ls| then ls[i + 1].offset else start
    ensures Limit(ls, ls[i], start) == next
  {
    if i + 1 < |ls| {
      LeastAt(ls, at + 1, i + 1);
    } else {
      LeastNone(ls, at + 1);
    }
  }

  lemma NextOffset(ls: seq<Entry>, es: seq<Entry>, i: nat)
    requires Lists(ls, es) && i < |es|
    ensures LocalPos(es, i + 1) == if i + 1 < |ls| then ls[i + 1].offset else LocalPos(es, |es|)
  {
    if i + 1 < |es| {
      ListedAt(ls, es, i + 1);
    } else {
      assert i + 1 == |es|;
    }
  }

  /** The end of each record is the limit of the next. */
  lemma ListedLimit(ls: seq<Entry>, es: seq<Entry>, i: nat)
    requires Lists(ls, es) && i < |es|
    ensures Limit(ls, ls[i], LocalPos(es, |es|)) == LocalPos(es, i + 1)
  {
    var at, next, start := LocalPos(es, i), LocalPos(es, i + 1), LocalPos(es, |es|);
    ListedAt(ls, es, i);
    NextOffset(ls, es, i);
    ListedSplit(ls, es, i, at, next);
    LimitFrom(ls, i, start, at, next);
  }

  lemma ListedSplit(ls: seq<Entry>, es: seq<Entry>, i: nat, at: nat, next: nat)
    requires Lists(ls, es) && i < |es| && at == LocalPos(es, i) && next == LocalPos(es, i + 1)
    ensures forall k | 0 <= k < |ls| :: if k <= i then ls[k].offset <= at else ls[k].offset >= next > at
  {
    forall k | 0 <= k < |ls|
      ensures if k <= i then ls[k].offset <= at else ls[k].offset >= next > at
    {
      ListedAround(ls, es, i, k);
    }
  }

  lemma ListedRecord(f: seq<Byte>, ls: seq<Entry>, es: seq<Entry>, comment: seq<Byte>, start: nat, pedantic: bool, i: nat)
    requires Lists(ls, es) && Archive(f, es, comment, start) && AllInRange(es) && i < |es|
    ensures RecordsOf(f, ls, start, pedantic)(i) == Record(es[i].data.value, LocalPos(es, i + 1))
    ensures LimitsOf(ls, start)(i) == LocalPos(es, i + 1)
  {
    var e, at, next := es[i], LocalPos(es, i), LocalPos(es, i + 1);
    LocalsAt(f, es, |es|, i);
    ListedLimit(ls, es, i);
    assert next == at + LocalSize(e);
    LoadBack(f, e, at, next, pedantic);
    assert ls[i] == Listed(e, at) by {
      assert Asked(i);
    }
  }

  /** The offsets grow and stay below the directory. */
  lemma ListedIncreasing(ls: seq<Entry>, es: seq<Entry>, start: nat)
    requires Lists(ls, es) && start == LocalPos(es, |es|)
    ensures (forall i, j | 0 <= i < j < |ls| :: ls[i].offset < ls[j].offset) && Below(ls, start)
    ensures if ls == [] then start == 0 else ls[0].offset == 0
  {
    forall i | 0 <= i < |ls|
      ensures ls[i].offset < start
    {
      ListedAt(ls, es, i);
      PosGrows(es, i, |es|);
    }
    forall i, j | 0 <= i < j < |ls|
      ensures ls[i].offset < ls[j].offset
    {
      ListedAt(ls, es, i);
      ListedAt(ls, es, j);
      PosGrows(es, i, j);
    }
    if ls != [] {
      ListedAt(ls, es, 0);
    }
  }

  /** Records that end at their limits, from the start of the file on, can be loaded. */
  lemma CompleteFrom(rec: Records, lim: Limits, ls: seq<Entry>, start: nat, pedantic: bool)
    requires forall i {:trigger rec(i)} | 0 <= i < |ls| :: rec(i).Record? && rec(i).end == lim(i)
    requires (forall i, j | 0 <= i < j < |ls| :: ls[i].offset < ls[j].offset) && Below(ls, start)
    requires if ls == [] then start == 0 else ls[0].offset == 0
    ensures Complete(rec, lim, ls, start, pedantic)
  {
  }

  /** The local records of a saved file load, in the pedantic mode too, with the data saved. */
  lemma SavedLoads(f: seq<Byte>, ls: seq<Entry>, es: seq<Entry>, comment: seq<Byte>, start: nat, pedantic: bool)
    requires Lists(ls, es) && Archive(f, es, comment, start) && AllInRange(es)
    ensures Loadable(f, ls, start, pedantic)
    ensures var rec := RecordsOf(f, ls, start, pedantic);
            forall i {:trigger rec(i)} | 0 <= i < |es| :: rec(i).Record? && rec(i).data == es[i].data.value
  {
    var rec, lim := RecordsOf(f, ls, start, pedantic), LimitsOf(ls, start);
    forall i {:trigger rec(i)} | 0 <= i < |es|
      ensures rec(i).Record? && rec(i).data == es[i].data.value && rec(i).end == lim(i)
    {
      ListedRecord(f, ls, es, comment, start, pedantic, i);
    }
    ListedIncreasing(ls, es, start);
    CompleteFrom(rec, lim, ls, start, pedantic);
  }

  lemma HeaderBack(f: seq<Byte>, start: nat, q: nat, p: nat, e: Entry, at: nat)
    requires start <= |f| && CentAt(f, q, e, at) && q == start + p && InRange(e) && at < 0x1_0000_0000
    ensures ReaderOf(f[start..])(p) == Some(Listed(e, at))
  {
    CentShifted(f, start, q, p, e, at);
    ReadBack(f[start..], p, e, at);
  }

  lemma ListedHeader(f: seq<Byte>, ls: seq<Entry>, es: seq<Entry>, start: nat, i: nat)
    requires start <= |f| && Lists(ls, es) && AllInRange(es) && Cents(f, es, start, |es|) && i < |es|
    requires LocalPos(es, |es|) < 0x1_0000_0000
    ensures ReaderOf(f[start..])(CentPos(ls, 0, i)) == Some(ls[i])
  {
    var p, at := CentPos(es, 0, i), LocalPos(es, i);
    CentsAt(f, es, start, |es|, i);
    CentPosBase(es, start, i);
    PosGrows(es, i, |es|);
    HeaderBack(f, start, CentPos(es, start, i), p, es[i], at);
    ListedPos(ls, es, i);
    assert ls[i] == Listed(es[i], at) by {
      assert Asked(i);
    }
  }

  lemma EndShifted(f: seq<Byte>, start: nat, p: nat, count: nat, comment: seq<Byte>, pedantic: bool)
    requires EndAt(f, start + p, count, start, comment) && |f| == start + p + EO_FIXED + |comment|
    requires start < 0x1_0000_0000 && |comment| < 0x1_0000
    ensures EndRecord(f[start..], p, start, comment, pedantic)
  {
    assert EndAsked(0);
    var data := f[start..];
    assert data[p + EO_FIXED..p + EO_FIXED + |comment|] == f[start + p + EO_FIXED..start + p + EO_FIXED + |comment|];
  }

  /** The directory of a saved file, read from its start. */
  lemma SavedDirectory(f: seq<Byte>, ls: seq<Entry>, es: seq<Entry>, comment: seq<Byte>, start: nat, pedantic: bool)
    requires Lists(ls, es) && Archive(f, es, comment, start) && AllInRange(es)
    requires start < 0x1_0000_0000 && |comment| < 0x1_0000
    ensures start < |f| && Directory(f[start..], Dir(ls, start, comment), pedantic)
  {
    var read := ReaderOf(f[start..]);
    forall i {:trigger read(CentPos(ls, 0, i))} | 0 <= i < |ls|
      ensures read(CentPos(ls, 0, i)) == Some(ls[i])
    {
      ListedHeader(f, ls, es, start, i);
    }
    ListedPos(ls, es, |es|);
    CentPosBase(es, start, |es|);
    EndShifted(f, start, CentPos(es, 0, |es|), |es|, comment, pedantic);
  }

  // ----- the end record, seen before the save

  function Bytes16(v: nat): seq<Byte> { [v % 0x100, v / 0x100 % 0x100] }

  function Bytes32(v: nat): seq<Byte> { [v % 0x100, v / 0x100 % 0x100, v / 0x1_0000 % 0x100, v / 0x100_0000 % 0x100] }

  lemma Written16(f: seq<Byte>, p: nat, v: nat)
    requires p + 2 <= |f| && Read16(f, p) == Low16(v)
    ensures f[p..p + 2] == Bytes16(v)
  {
    TwoDigits(v);
  }

  lemma SameBytes(a: Byte, b: Byte, c: Byte, d: Byte, w: Byte, x: Byte, y: Byte, z: Byte)
    requires a + 0x100 * b + 0x1_0000 * (c + 0x100 * d) == w + 0x100 * x + 0x1_0000 * (y + 0x100 * z)
    ensures a == w && b == x && c == y && d == z
  {
  }

  lemma Read32Bytes(v: nat)
    ensures Read32(Bytes32(v), 0) == Low32(v)
  {
    Digits(v);
  }

  lemma Read32Slice(f: seq<Byte>, p: nat)
    requires p + 4 <= |f|
    ensures Read32(f, p) == Read32(f[p..p + 4], 0)
  {
  }

  lemma Written32(f: seq<Byte>, p: nat, v: nat)
    requires p + 4 <= |f| && Read32(f, p) == Low32(v)
    ensures f[p..p + 4] == Bytes32(v)
  {
    Read32Bytes(v);
    BytesDetermined(f[p..p + 4], Bytes32(v));
  }

  lemma BytesDetermined(s: seq<Byte>, b: seq<Byte>)
    requires |s| == |b| == 4 && Read32(s, 0) == Read32(b, 0)
    ensures s == b
  {
    SameBytes(s[0], s[1], s[2], s[3], b[0], b[1], b[2], b[3]);
  }

  /** The bytes of an end record with its comment. */
  function EndBytes(count: nat, size: nat, start: nat, comment: seq<Byte>): seq<Byte> {
    Bytes32(E_SIGNATURE) + Bytes16(0) + Bytes16(0) + Bytes16(count) + Bytes16(count) +
    Bytes32(size) + Bytes32(start) + Bytes16(|comment|) + comment
  }

  lemma Joined(f: seq<Byte>, p: nat, q: nat, r: nat)
    requires p <= q <= r <= |f|
    ensures f[p..q] + f[q..r] == f[p..r]
  {
  }

  lemma HeadWritten(f: seq<Byte>, p: nat, count: nat)
    requires p + 12 <= |f| && Read32(f, p) == E_SIGNATURE && Read16(f, p + 4) == 0 && Read16(f, p + 6) == 0
    requires Read16(f, p + 8) == Low16(count) && Read16(f, p + 10) == Low16(count)
    ensures f[p..p + 12] == Bytes32(E_SIGNATURE) + Bytes16(0) + Bytes16(0) + Bytes16(count) + Bytes16(count)
  {
    Written32(f, p, E_SIGNATURE);
    Written16(f, p + 4, 0);
    Written16(f, p + 6, 0);
    Written16(f, p + 8, count);
    Written16(f, p + 10, count);
    Joined(f, p, p + 4, p + 6);
    Joined(f, p, p + 6, p + 8);
    Joined(f, p, p + 8, p + 10);
    Joined(f, p, p + 10, p + 12);
  }

  lemma EndWritten(f: seq<Byte>, p: nat, count: nat, start: nat, comment: seq<Byte>)
    requires EndAt(f, p, count, start, comment) && |f| == p + EO_FIXED + |comment|
    ensures f[p..] == EndBytes(count, p - start, start, comment)
  {
    assert EndAsked(0);
    HeadWritten(f, p, count);
    Written32(f, p + 12, p - start);
    Written32(f, p + 16, start);
    Written16(f, p + 20, |comment|);
    Joined(f, p, p + 12, p + 16);
    Joined(f, p, p + 16, p + 20);
    Joined(f, p, p + 20, p + 22);
    Joined(f, p, p + 22, |f|);
    assert f[p..|f|] == f[p..];
  }

  /** The end of the file that `save` writes for these entries and this comment. */
  function Tail(es: seq<Entry>, comment: seq<Byte>): (tail: seq<Byte>)
    ensures |tail| == EO_FIXED + |comment|
  {
    EndBytes(|es|, CentPos(es, 0, |es|), LocalPos(es, |es|), comment)
  }

  /** How long that file is. */
  function SavedSize(es: seq<Entry>, comment: seq<Byte>): nat { LocalPos(es, |es|) + CentPos(es, 0, |es|) + EO_FIXED + |comment| }

  /** Seen before the save: the last signature in the end record and its comment is in the
      search window, and where an end record there would have the start of the directory,
      the number is right. */
  ghost predicate EndIsFound(es: seq<Entry>, comment: seq<Byte>) {
    var tail := Tail(es, comment);
    exists q: nat :: IsLastSig(tail, q) && |tail| - q <= Window(SavedSize(es, comment)) && Read32(tail, q + 16) == LocalPos(es, |es|)
  }

  lemma TailWritten(f: seq<Byte>, es: seq<Entry>, comment: seq<Byte>, start: nat)
    requires Archive(f, es, comment, start)
    ensures |f| == SavedSize(es, comment) && f[|f| - EO_FIXED - |comment|..] == Tail(es, comment)
  {
    CentPosBase(es, start, |es|);
    EndWritten(f, CentPos(es, start, |es|), |es|, start, comment);
  }

  /** In a file that ends with the bytes of an end record, the last signature is there. */
  lemma LastInTail(f: seq<Byte>, k: nat, tail: seq<Byte>, p: nat)
    requires k <= |f| && f[k..] == tail && EO_FIXED <= |tail| && SigAt(tail, 0)
    ensures IsLastSig(f, p) <==> p >= k && IsLastSig(tail, p - k)
  {
    assert SigAt(f, k);
    assert forall j | k <= j && j + EO_FIXED <= |f| :: SigAt(f, j) <==> SigAt(tail, j - k);
    if p >= k && IsLastSig(tail, p - k) {
      SigShifted(f, k, p - k);
    }
    if IsLastSig(f, p) {
      assert p >= k;
      assert forall j | p - k + 1 <= j && j + EO_FIXED <= |tail| :: SigAt(tail, j) <==> SigAt(f, k + j);
    }
  }

  lemma FoundInTail(f: seq<Byte>, k: nat, tail: seq<Byte>, start: nat)
    requires k <= |f| && f[k..] == tail && EO_FIXED <= |tail| && SigAt(tail, 0)
    ensures (exists p: nat :: Found(f, p) && Read32(f, p + 16) == start) <==>
            exists q: nat :: IsLastSig(tail, q) && |tail| - q <= Window(|f|) && Read32(tail, q + 16) == start
  {
    if p: nat :| Found(f, p) && Read32(f, p + 16) == start {
      LastInTail(f, k, tail, p);
      var q: nat := p - k;
      assert IsLastSig(tail, q) && Read32(tail, q + 16) == start;
    }
    if q: nat :| IsLastSig(tail, q) && |tail| - q <= Window(|f|) && Read32(tail, q + 16) == start {
      LastInTail(f, k, tail, k + q);
      assert Found(f, k + q) && Read32(f, k + q + 16) == start;
    }
  }

  lemma FoundExactly(f: seq<Byte>, es: seq<Entry>, comment: seq<Byte>, start: nat)
    requires Archive(f, es, comment, start)
    ensures (exists p: nat :: Found(f, p) && Read32(f, p + 16) == start) <==> EndIsFound(es, comment)
  {
    TailWritten(f, es, comment, start);
    assert SigAt(Tail(es, comment), 0);
    FoundInTail(f, |f| - EO_FIXED - |comment|, Tail(es, comment), start);
  }

  /** The file opens with the directory that was saved if and only if its end record is the
      one that is found; which entries and comment decide. */
  lemma SavedOpens(f: seq<Byte>, ls: seq<Entry>, es: seq<Entry>, comment: seq<Byte>, start: nat, pedantic: bool)
    requires Lists(ls, es) && Archive(f, es, comment, start) && AllInRange(es)
    requires start < 0x1_0000_0000 && |comment| < 0x1_0000
    ensures Opens(f, Dir(ls, start, comment), pedantic) <==> EndIsFound(es, comment)
  {
    SavedDirectory(f, ls, es, comment, start, pedantic);
    FoundExactly(f, es, comment, start);
  }

  /** The first bytes of an end record, up to its counts, hold no second signature. */
  lemma OneSigAhead(es: seq<Entry>, comment: seq<Byte>)
    requires NoSig(Tail(es, comment), 8)
    ensures IsLastSig(Tail(es, comment), 0)
  {
    var tail := Tail(es, comment);
    assert tail[..8] == [0x50, 0x4B, 5, 6, 0, 0, 0, 0];
    assert forall k | 0 <= k < 8 :: tail[k] == tail[..8][k];
    forall j | 1 <= j && j + EO_FIXED <= |tail|
      ensures !SigAt(tail, j)
    {
    }
  }

  lemma FourParts(a: seq<Byte>, b: seq<Byte>, c: seq<Byte>, d: seq<Byte>)
    ensures var s := a + b + c + d;
            && s[|a|..|a| + |b|] == b && s[|a| + |b|..|a| + |b| + |c|] == c && s[|a| + |b| + |c|..] == d
  {
  }

  lemma EndParts(count: nat, size: nat, start: nat, comment: seq<Byte>)
    ensures var s := EndBytes(count, size, start, comment);
            s[16..20] == Bytes32(start) && s[20..22] == Bytes16(|comment|) && s[22..] == comment
  {
    var a := Bytes32(E_SIGNATURE) + Bytes16(0) + Bytes16(0) + Bytes16(count) + Bytes16(count) + Bytes32(size);
    FourParts(a, Bytes32(start), Bytes16(|comment|), comment);
  }

  lemma StartInBytes(count: nat, size: nat, start: nat, comment: seq<Byte>)
    requires start < 0x1_0000_0000
    ensures Read32(EndBytes(count, size, start, comment), 16) == start
  {
    EndParts(count, size, start, comment);
    Read32Slice(EndBytes(count, size, start, comment), 16);
    Read32Bytes(start);
  }

  lemma StartInTail(es: seq<Entry>, comment: seq<Byte>)
    requires LocalPos(es, |es|) < 0x1_0000_0000
    ensures Read32(Tail(es, comment), 16) == LocalPos(es, |es|)
  {
    StartInBytes(|es|, CentPos(es, 0, |es|), LocalPos(es, |es|), comment);
  }

  /** No signature from the counts on, in the fields of the end record and in the comment, and
      a comment that fits in the search window: the end record is found. */
  lemma CleanComment(es: seq<Entry>, comment: seq<Byte>)
    requires LocalPos(es, |es|) < 0x1_0000_0000
    requires NoSig(Tail(es, comment), 8) && EO_FIXED + |comment| <= Window(SavedSize(es, comment))
    ensures EndIsFound(es, comment)
  {
    OneSigAhead(es, comment);
    StartInTail(es, comment);
  }

  lemma WindowHolds(length: nat)
    requires EO_FIXED <= length
    ensures EO_FIXED <= Window(length)
  {
  }

  /** A sequence with room for one record only. */
  lemma NoRoom(tail: seq<Byte>)
    requires |tail| == EO_FIXED
    ensures NoSig(tail, 8)
  {
  }

  /** Without a comment there is nothing to check. */
  lemma NoComment(es: seq<Entry>)
    requires LocalPos(es, |es|) < 0x1_0000_0000
    ensures EndIsFound(es, [])
  {
    NoRoom(Tail(es, []));
    WindowHolds(SavedSize(es, []));
    CleanComment(es, []);
  }

  const FAKE_END: seq<Byte> := [0x50, 0x4B, 5, 6, 0, 0, 0, 0, 0, 0, 0, 0, 0, 0, 0, 0, 0xFF, 0xFF, 0xFF, 0xFF, 0, 0]

  /** Where the last signature gives a start behind the end, the file does not open at all. */
  lemma NeverOpens(f: seq<Byte>, p: nat, d: Dir, pedantic: bool)
    requires IsLastSig(f, p) && Read32(f, p + 16) >= |f|
    ensures !Opens(f, d, pedantic)
  {
    LastSigUnique(f, p);
  }

  /** A comment that is an end record itself makes the file unreadable. */
  lemma FakeEnd(f: seq<Byte>, es: seq<Entry>, start: nat, d: Dir, pedantic: bool)
    requires Archive(f, es, FAKE_END, start) && |f| < 0xFFFF_FFFF
    ensures !Opens(f, d, pedantic)
  {
    var p := |f| - EO_FIXED;
    assert f[p..] == FAKE_END by {
      assert EndAsked(0);
    }
    assert forall k | 0 <= k < EO_FIXED :: f[p + k] == FAKE_END[k];
    assert IsLastSig(f, p);
    NeverOpens(f, p, d, pedantic);
  }

  /** Sixteen letters `A`. */
  const LETTERS: seq<Byte> := [0x41, 0x41, 0x41, 0x41, 0x41, 0x41, 0x41, 0x41, 0x41, 0x41, 0x41, 0x41, 0x41, 0x41, 0x41, 0x41]

  lemma LettersTail(tail: seq<Byte>)
    requires |tail| == 38 && tail[16..20] == [0x50, 0x4B, 5, 6] && tail[20..22] == [16, 0] && tail[22..] == LETTERS
    ensures IsLastSig(tail, 16) && Read32(tail, 32) == 0x4141_4141
  {
    assert forall i | 0 <= i < 4 :: tail[16 + i] == tail[16..20][i];
    assert forall i | 0 <= i < 16 :: tail[22 + i] == tail[22..][i] == 0x41;
  }

  lemma SigBytes()
    ensures Bytes32(E_SIGNATURE) == [0x50, 0x4B, 5, 6] && Bytes16(|LETTERS|) == [16, 0]
  {
  }

  /** A comment without any signature can do the same, if the start of the directory has the
      bytes of one: the last signature is then in the end record itself. */
  lemma FieldIsSig(es: seq<Entry>)
    requires LocalPos(es, |es|) == E_SIGNATURE
    ensures !EndIsFound(es, LETTERS)
    ensures IsLastSig(Tail(es, LETTERS), 16) && Read32(Tail(es, LETTERS), 32) == 0x4141_4141
  {
    var tail := Tail(es, LETTERS);
    assert tail[16..20] == [0x50, 0x4B, 5, 6] && tail[20..22] == [16, 0] && tail[22..] == LETTERS by {
      EndParts(|es|, CentPos(es, 0, |es|), LocalPos(es, |es|), LETTERS);
      SigBytes();
    }
    LettersTail(tail);
    LastSigUnique(tail, 16);
  }

  lemma FieldFails(f: seq<Byte>, es: seq<Entry>, d: Dir, pedantic: bool)
    requires Archive(f, es, LETTERS, E_SIGNATURE) && |f| <= 0x4141_4141
    ensures !Opens(f, d, pedantic)
  {
    var tail, k := Tail(es, LETTERS), |f| - EO_FIXED - |LETTERS|;
    TailWritten(f, es, LETTERS, E_SIGNATURE);
    FieldIsSig(es);
    LastInTail(f, k, tail, k + 16);
    assert Read32(f, k + 16 + 16) == Read32(f[k..], 16 + 16);
    NeverOpens(f, k + 16, d, pedantic);
  }

  /** There are such zips: one file of a hundred megabytes. */
  lemma OneLargeFile() returns (es: seq<Entry>)
    ensures AllInRange(es) && LocalPos(es, |es|) == E_SIGNATURE && SavedSize(es, LETTERS) <= 0x4141_4141
    ensures !EndIsFound(es, LETTERS)
  {
    var n := E_SIGNATURE - LO_FIXED - 1;
    var data: seq<Byte> := seq(n, i => 0);
    var e := Entry(0, 0, 0, 0, 0, 0, 0, 0, 0, n, n, 0, 0, 0, [0x61], [], [], [], Some(data));
    es := [e];
    assert LocalPos(es, 1) == LocalSize(e) && CentPos(es, 0, 1) == CentSize(e);
    FieldIsSig(es);
  }

  /** What a zip gives back: everything but the descriptor bit and the local extra field. */
  ghost predicate SameEntries(ys: seq<Entry>, es: seq<Entry>) {
    |ys| == |es| && forall i | 0 <= i < |es| ::
      ys[i] == es[i].(flags := ClearDescriptor(es[i].flags), offset := ys[i].offset, localExtra := [])
  }

  /** The directory, once loaded, has the saved entries again. */
  lemma LoadedEntries(ys: seq<Entry>, ls: seq<Entry>, es: seq<Entry>, rec: Records)
    requires Lists(ls, es) && AllInRange(es) && |ys| == |ls|
    requires forall i {:trigger rec(i)} | 0 <= i < |es| :: rec(i).Record? && rec(i).data == es[i].data.value
    requires forall i | 0 <= i < |ys| :: ys[i] == ls[i].(data := Some(rec(i).data))
    ensures SameEntries(ys, es)
  {
    forall i | 0 <= i < |es|
      ensures ys[i] == es[i].(flags := ClearDescriptor(es[i].flags), offset := ys[i].offset, localExtra := [])
    {
      assert Asked(i);
    }
  }

  /** The entries that reading the directory gives back. */
  ghost function ListOf(es: seq<Entry>): (ls: seq<Entry>)
    ensures Lists(ls, es)
  {
    seq(|es|, i requires 0 <= i < |es| => Listed(es[i], LocalPos(es, i)))
  }

  /** What is read from a file that has the directory `d`. */
  ghost predicate Reads(y: Zip, f: seq<Byte>, d: Dir, pedantic: bool)
    reads y
  {
    && y.isOpen && y.isRead && y.centStart == d.start && y.comment == d.comment && |y.entries| == |d.entries|
    && var rec := RecordsOf(f, d.entries, d.start, pedantic);
       forall i | 0 <= i < |d.entries| :: rec(i).Record? && y.entries[i] == d.entries[i].(data := Some(rec(i).data))
  }

  method LoadOpened(y: Zip, f: seq<Byte>, ghost d: Dir) returns (ok: bool)
    requires y.isOpen && !y.isRead && y.disk == Some(f) && d == Dir(y.entries, y.centStart, y.comment) && d.start <= |f|
    modifies y
    ensures ok == Loadable(f, d.entries, d.start, y.pedantic)
    ensures ok ==> Reads(y, f, d, y.pedantic)
  {
    ok := y.Load();
  }

  /** A file is opened and loaded exactly if it has a directory whose records can be loaded,
      and then with these. */
  method OpenAndLoad(f: seq<Byte>, pedantic: bool) returns (ok: bool, y: Zip)
    ensures fresh(y)
    ensures ok <==> exists d: Dir :: Opens(f, d, pedantic) && Loadable(f, d.entries, d.start, pedantic)
    ensures forall d: Dir :: Opens(f, d, pedantic) && Loadable(f, d.entries, d.start, pedantic) ==> Reads(y, f, d, pedantic)
  {
    y := new Zip(Some(f), pedantic);
    ok := y.Open();
    if !ok {
      return;
    }
    ghost var d := Dir(y.entries, y.centStart, y.comment);
    forall e: Dir | Opens(f, e, pedantic)
      ensures e == d
    {
      assert [] + e.entries == e.entries;
    }
    ok := LoadOpened(y, f, d);
  }

  /** The saved file is read back. */
  lemma SavedReads(y: Zip, f: seq<Byte>, es: seq<Entry>, comment: seq<Byte>, start: nat, pedantic: bool)
    requires Archive(f, es, comment, start) && AllInRange(es) && start < 0x1_0000_0000 && |comment| < 0x1_0000
    requires EndIsFound(es, comment)
    ensures var d := Dir(ListOf(es), start, comment);
            && Opens(f, d, pedantic) && Loadable(f, d.entries, d.start, pedantic)
            && (Reads(y, f, d, pedantic) ==> SameEntries(y.entries, es))
  {
    var ls := ListOf(es);
    SavedOpens(f, ls, es, comment, start, pedantic);
    SavedLoads(f, ls, es, comment, start, pedantic);
    if Reads(y, f, Dir(ls, start, comment), pedantic) {
      LoadedEntries(y.entries, ls, es, RecordsOf(f, ls, start, pedantic));
    }
  }

  /** A file whose end record is not the one that is found is not read with its own start. */
  lemma OtherStart(y: Zip, f: seq<Byte>, es: seq<Entry>, comment: seq<Byte>, start: nat, pedantic: bool)
    requires Archive(f, es, comment, start) && !EndIsFound(es, comment)
    ensures forall d: Dir :: Opens(f, d, pedantic) ==> d.start != start
  {
    FoundExactly(f, es, comment, start);
  }

  /** The round trip: save a zip that holds something, and open and load its file again. It
      gives the same entries back from the same place, in the pedantic mode too, exactly if
      the end record that is written is the one that is found; which needs no check if there
      is no comment. */
  method Reopen(z: Zip, pedantic: bool) returns (ok: bool, y: Zip)
    requires z.isOpen && z.isRead && !AllEmpty(z.entries) && AllInRange(z.entries)
    requires LocalPos(z.entries, |z.entries|) < 0x1_0000_0000 && |z.comment| < 0x1_0000
    modifies z
    ensures z.comment == old(z.comment) && fresh(y)
    ensures (ok && y.isRead && y.centStart == z.centStart && y.comment == z.comment && SameEntries(y.entries, old(z.entries))) <==>
            EndIsFound(old(z.entries), z.comment)
    ensures z.comment == [] ==> EndIsFound(old(z.entries), z.comment)
  {
    ghost var es := z.entries;
    ok := z.Save();
    ok, y := OpenAndLoad(z.disk.value, pedantic);
    ghost var f := z.disk.value;
    if z.comment == [] {
      NoComment(es);
    }
    if EndIsFound(es, z.comment) {
      SavedReads(y, f, es, z.comment, z.centStart, pedantic);
    } else {
      OtherStart(y, f, es, z.comment, z.centStart, pedantic);
    }
  }
}
