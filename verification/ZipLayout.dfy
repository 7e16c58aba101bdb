/** What a zip file that another program has written must look like to be read: the layout of
    directory headers, local records and data descriptors, written out as sections 4.3.7,
    4.3.9 and 4.3.12 of APPNOTE.TXT give it (zip.cc:472-640, 700-774). */
module ZipLayout {
  import opened Wrappers
  import opened Endian
  import opened ZipFormat
  import opened ZipDirectory

  // ----- the directory

  /** A central directory header of `e` at `p`, whatever its flags are. */
  ghost predicate HeaderOf(f: seq<Byte>, p: nat, e: Entry) {
    && p + 46 + |e.name| + |e.centralExtra| + |e.comment| <= |f| && e.name != []
    && f[p..p + 4] == [0x50, 0x4B, 1, 2]
    && f[p + 4..p + 8] == [e.versionMadeBy, e.hostOs, e.versionNeeded, e.osNeeded]
    && Read16(f, p + 8) == e.flags && Read16(f, p + 10) == e.compression
    && Read16(f, p + 12) == e.time && Read16(f, p + 14) == e.date
    && Read32(f, p + 16) == e.crc && Read32(f, p + 20) == e.compressedSize && Read32(f, p + 24) == e.uncompressedSize
    && Read16(f, p + 28) == |e.name| && Read16(f, p + 30) == |e.centralExtra| && Read16(f, p + 32) == |e.comment|
    && Read16(f, p + 36) == e.internalAttrib && Read32(f, p + 38) == e.externalAttrib && Read32(f, p + 42) == e.offset
    && HeaderStrings(f, p + 46, e) && e.localExtra == [] && e.data.None?
  }

  /** The name, the extra field and the comment, one behind the other. */
  ghost predicate HeaderStrings(f: seq<Byte>, q: nat, e: Entry)
    requires q + |e.name| + |e.centralExtra| + |e.comment| <= |f|
  {
    var r := q + |e.name|;
    var s := r + |e.centralExtra|;
    f[q..r] == e.name && f[r..s] == e.centralExtra && f[s..s + |e.comment|] == e.comment
  }

  lemma FourBytes(f: seq<Byte>, p: nat, a: Byte, b: Byte, c: Byte, d: Byte)
    requires p + 4 <= |f|
    ensures Read32(f, p) == a + 0x100 * b + 0x1_0000 * (c + 0x100 * d) <==> f[p..p + 4] == [a, b, c, d]
  {
    if f[p..p + 4] == [a, b, c, d] {
      var s := f[p..p + 4];
      assert s[0] == f[p] && s[1] == f[p + 1] && s[2] == f[p + 2] && s[3] == f[p + 3];
    }
  }

  /** A header is read as this entry exactly if it is laid out like that. */
  lemma HeaderExactly(f: seq<Byte>, p: nat, e: Entry)
    ensures ReaderOf(f)(p) == Some(e) <==> HeaderOf(f, p, e)
  {
    if p + 46 <= |f| {
      FourBytes(f, p, 0x50, 0x4B, 1, 2);
      assert f[p + 4..p + 8] == [f[p + 4], f[p + 5], f[p + 6], f[p + 7]];
    }
    if HeaderOf(f, p, e) {
      HeaderRead(f, p, e);
    }
  }

  lemma HeaderRead(f: seq<Byte>, p: nat, e: Entry)
    requires HeaderOf(f, p, e)
    ensures ReaderOf(f)(p) == Some(e)
  {
    FourBytes(f, p, 0x50, 0x4B, 1, 2);
    assert f[p + 4..p + 8] == [f[p + 4], f[p + 5], f[p + 6], f[p + 7]];
    assert CentFits(f, p);
    assert CentEntry(f, p) == e;
  }

  // ----- local records

  /** A field of a local header that has to be known, unless a descriptor follows: then it is
      zero, or outside of the pedantic mode known all the same. */
  ghost predicate Agrees(read: nat, known: nat, streamed: bool, pedantic: bool) {
    if streamed then read == 0 || (!pedantic && read == known) else read == known
  }

  /** A local header that agrees with the directory entry `e`, with `extra` bytes of extra
      field. */
  ghost predicate LocalOf(f: seq<Byte>, e: Entry, extra: nat, pedantic: bool) {
    var p, streamed := e.offset, e.flags / 8 % 2 == 1;
    && p + 30 <= |f|
    && f[p..p + 4] == [0x50, 0x4B, 3, 4]
    && Read16(f, p + 6) == e.flags && Read16(f, p + 8) == e.compression
    && Agrees(Read32(f, p + 14), e.crc, streamed, pedantic)
    && Agrees(Read32(f, p + 18), e.compressedSize, streamed, pedantic)
    && Agrees(Read32(f, p + 22), e.uncompressedSize, streamed, pedantic)
    && Read16(f, p + 26) == |e.name| && Read16(f, p + 28) == extra
    && (e.localExtra == [] || |e.localExtra| == extra)
  }

  /** A data descriptor of `e` at `p`. */
  ghost predicate DescriptorAt(f: seq<Byte>, p: nat, e: Entry) {
    && p + 16 <= |f|
    && f[p..p + 4] == [0x50, 0x4B, 7, 8]
    && Read32(f, p + 4) == e.crc
    && Read32(f, p + 8) in {e.compressedSize, 0}
    && Read32(f, p + 12) in {e.uncompressedSize, 0}
  }

  /** The form without signature. */
  ghost predicate BareDescriptorAt(f: seq<Byte>, p: nat, e: Entry) {
    && p + 12 <= |f|
    && Read32(f, p) == e.crc
    && Read32(f, p + 4) in {e.compressedSize, 0}
    && Read32(f, p + 8) in {e.uncompressedSize, 0}
  }

  /** The record of `e`, with the data `data` and its end at `end`, in front of `limit`. */
  ghost predicate RecordAt(f: seq<Byte>, e: Entry, extra: nat, limit: nat, pedantic: bool, data: seq<Byte>, end: nat) {
    var q := e.offset + 30 + |e.name| + extra + e.compressedSize;
    && limit <= |f| && end <= limit && LocalOf(f, e, extra, pedantic)
    && q <= end && data == f[q - e.compressedSize..q]
    && (if e.flags / 8 % 2 == 0 then end == q
        else if limit == q + 12 then end == q + 12 && BareDescriptorAt(f, q, e)
        else end == q + 16 && DescriptorAt(f, q, e))
  }

  lemma LocalExactly(f: seq<Byte>, e: Entry, extra: nat, pedantic: bool)
    requires e.offset + 30 <= |f|
    ensures LocalOf(f, e, extra, pedantic) <==> CheckLocal(f, e.offset, e, pedantic) && extra == Read16(f, e.offset + 28)
  {
    FourBytes(f, e.offset, 0x50, 0x4B, 3, 4);
  }

  lemma DescriptorExactly(f: seq<Byte>, e: Entry, data: seq<Byte>, q: nat, limit: nat, end: nat)
    requires q <= limit <= |f|
    ensures Descriptor(f, e, data, q, limit) == Record(data, end) <==>
            end <= limit && if limit == q + 12 then end == q + 12 && BareDescriptorAt(f, q, e) else end == q + 16 && DescriptorAt(f, q, e)
  {
    if q + 16 <= |f| {
      FourBytes(f, q, 0x50, 0x4B, 7, 8);
    }
  }

  /** A local record is loaded, with this data and up to this end, exactly if it is laid out
      like that; streamed or not. */
  lemma RecordExactly(f: seq<Byte>, e: Entry, limit: nat, pedantic: bool, data: seq<Byte>, end: nat)
    ensures LocalRecord(f, e, limit, pedantic) == Record(data, end) <==>
            e.offset + 30 <= limit <= |f| && RecordAt(f, e, Read16(f, e.offset + 28), limit, pedantic, data, end)
  {
    if e.offset + 30 <= limit <= |f| {
      var extra := Read16(f, e.offset + 28);
      LocalExactly(f, e, extra, pedantic);
      var q := e.offset + 30 + |e.name| + extra + e.compressedSize;
      if q <= limit && e.flags / 8 % 2 == 1 {
        DescriptorExactly(f, e, f[q - e.compressedSize..q], q, limit, end);
      }
    }
  }

  /** A streamed record, its descriptor with signature, loads with its data. */
  lemma StreamedLoads(f: seq<Byte>, e: Entry, extra: nat, limit: nat, pedantic: bool)
    requires e.flags / 8 % 2 == 1 && LocalOf(f, e, extra, pedantic)
    requires var q := e.offset + 30 + |e.name| + extra + e.compressedSize; DescriptorAt(f, q, e) && q + 16 <= limit <= |f|
    ensures var q := e.offset + 30 + |e.name| + extra + e.compressedSize;
            LocalRecord(f, e, limit, pedantic) == Record(f[q - e.compressedSize..q], q + 16)
  {
    var q := e.offset + 30 + |e.name| + extra + e.compressedSize;
    RecordExactly(f, e, limit, pedantic, f[q - e.compressedSize..q], q + 16);
  }

  /** The same without signature, right in front of the next record. */
  lemma BareStreamedLoads(f: seq<Byte>, e: Entry, extra: nat, pedantic: bool)
    requires e.flags / 8 % 2 == 1 && LocalOf(f, e, extra, pedantic)
    requires BareDescriptorAt(f, e.offset + 30 + |e.name| + extra + e.compressedSize, e)
    ensures var q := e.offset + 30 + |e.name| + extra + e.compressedSize;
            LocalRecord(f, e, q + 12, pedantic) == Record(f[q - e.compressedSize..q], q + 12)
  {
    var q := e.offset + 30 + |e.name| + extra + e.compressedSize;
    RecordExactly(f, e, q + 12, pedantic, f[q - e.compressedSize..q], q + 12);
  }
}
