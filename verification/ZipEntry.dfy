/** One entry of a zip file: reading and writing its records (zip.cc:225-329, 341-451,
    458-774). */
module ZipEntry {
  import opened Wrappers
  import opened Endian
  import opened ZipFormat
  import opened ZipDirectory

  // ----- methods

  datatype Method =
    | Unknown | Store | Shrunk | Reduce1 | Reduce2 | Reduce3 | Reduce4
    | Implode4k2t | Implode8k2t | Implode4k3t | Implode8k3t
    | Deflate(level: nat) | Bzip2 | Lzma

  /** The two flag bits that select a variant of implode or deflate. */
  function Variant(flags: nat): nat { flags / 2 % 4 }

  /** `method_get` */
  function MethodGet(e: Entry): Method {
    if e.compression == 0 then Store
    else if e.compression == 1 then Shrunk
    else if e.compression == 2 then Reduce1
    else if e.compression == 3 then Reduce2
    else if e.compression == 4 then Reduce3
    else if e.compression == 5 then Reduce4
    else if e.compression == 6 then
      var v := Variant(e.flags);
      if v == 0 then Implode4k2t else if v == 1 then Implode8k2t else if v == 2 then Implode4k3t else Implode8k3t
    else if e.compression == 8 then
      var v := Variant(e.flags);
      Deflate(if v == 0 then 6 else if v == 1 then 9 else if v == 2 then 3 else 1)
    else if e.compression == 12 then Bzip2
    else if e.compression == 15 then Lzma
    else Unknown
  }

  /** The compression and the flags that `set` stores for a method; none if it is not supported. */
  function MethodCode(m: Method): Option<(nat, nat)> {
    match m
    case Unknown => None
    case Store => Some((0, 0))
    case Shrunk => Some((1, 0))
    case Reduce1 => Some((2, 0))
    case Reduce2 => Some((3, 0))
    case Reduce3 => Some((4, 0))
    case Reduce4 => Some((5, 0))
    case Implode4k2t => Some((6, 0))
    case Implode8k2t => Some((6, 2))
    case Implode4k3t => Some((6, 4))
    case Implode8k3t => Some((6, 6))
    case Deflate(level) =>
      if 1 <= level <= 2 then Some((8, 6))
      else if 3 <= level <= 5 then Some((8, 4))
      else if 6 <= level <= 8 then Some((8, 0))
      else if level == 9 then Some((8, 2))
      else None
    case Bzip2 => Some((12, 0))
    case Lzma => Some((15, 0))
  }

  /** Bit 0 of the internal attributes. */
  predicate IsText(e: Entry) { e.internalAttrib % 2 == 1 }

  /** `set`: none for an unsupported method or a stored size that does not match. */
  method Set(m: Method, name: seq<Byte>, data: seq<Byte>, size: nat, crc: nat, date: nat, time: nat, isText: bool)
    returns (r: Option<Entry>)
    ensures r.Some? <==> MethodCode(m).Some? && (m.Store? ==> |data| == size)
    ensures r.Some? ==>
              var e := r.value;
              && e.name == name && e.data == Some(data) && e.compressedSize == |data| && e.uncompressedSize == size
              && e.crc == crc && e.date == date && e.time == time && IsText(e) == isText
              && e.localExtra == [] && e.centralExtra == [] && e.comment == []
              && (e.compression, e.flags) == MethodCode(m).value
              && e.versionNeeded == (if m.Store? then 10 else 20) && e.versionMadeBy == 20
              && e.hostOs == 0 && e.osNeeded == 0 && e.externalAttrib == 0 && e.internalAttrib < 2
  {
    var e := Entry(20, 0, 20, 0, 0, 0, time, date, crc, |data|, size, if isText then 1 else 0, 0, 0,
                   [], [], [], [], None);
    if m.Store? {
      if size != |data| {
        return None;
      }
      e := e.(versionNeeded := 10);
    }
    var code := MethodCode(m);
    if code.None? {
      return None;
    }
    e := e.(compression := code.value.0, flags := code.value.1, data := Some(data), name := name);
    return Some(e);
  }

  /** Setting the method that was got keeps the compression and the two variant bits, and
      getting it again gives the same method. */
  lemma MethodRoundTrip(e: Entry, f: Entry)
    requires MethodCode(MethodGet(e)).Some? && (f.compression, f.flags) == MethodCode(MethodGet(e)).value
    ensures MethodGet(f) == MethodGet(e) && f.compression == e.compression && !HasDescriptor(f.flags)
    ensures e.compression == 6 || e.compression == 8 ==> Variant(f.flags) == Variant(e.flags)
  {
  }

  // ----- reading

  /** The name, the extra field and the comment behind a directory header. */
  method LoadStrings(data: seq<Byte>, at: nat) returns (name: seq<Byte>, extra: seq<Byte>, comment: seq<Byte>, end: nat)
    requires CentFits(data, at)
    ensures var e := CentEntry(data, at); name == e.name && extra == e.centralExtra && comment == e.comment
    ensures end == at + CO_FIXED + |name| + |extra| + |comment|
  {
    var buf := at + CO_FIXED;
    name := data[buf..buf + Read16(data, at + 28)];
    buf := buf + Read16(data, at + 28);
    extra := data[buf..buf + Read16(data, at + 30)];
    buf := buf + Read16(data, at + 30);
    comment := data[buf..buf + Read16(data, at + 32)];
    end := buf + Read16(data, at + 32);
  }

  /** `load_cent` */
  method LoadCent(data: seq<Byte>, at: nat) returns (r: Option<Entry>, skip: nat)
    ensures r == ReaderOf(data)(at)
    ensures r.Some? ==> skip == CentSize(r.value)
  {
    if at + CO_FIXED > |data| || Read32(data, at) != C_SIGNATURE || Read16(data, at + 28) == 0 {
      return None, 0;
    }
    if at + CO_FIXED + DeclaredSize(data, at) > |data| {
      return None, 0;
    }
    var name, extra, comment, end := LoadStrings(data, at);
    r := Some(Entry(data[at + 4], data[at + 5], data[at + 6], data[at + 7], Read16(data, at + 8), Read16(data, at + 10),
                    Read16(data, at + 12), Read16(data, at + 14), Read32(data, at + 16), Read32(data, at + 20),
                    Read32(data, at + 24), Read16(data, at + 36), Read32(data, at + 38), Read32(data, at + 42),
                    name, [], extra, comment, None));
    skip := end - at;
  }

  /** The data descriptor, at `pos` with `size` bytes left: where it ends. */
  method LoadDescriptor(f: seq<Byte>, e: Entry, pos: nat, size: nat) returns (r: Option<nat>)
    ensures pos + size <= |f| ==>
              r == var d := Descriptor(f, e, [], pos, pos + size); if d.Record? then Some(d.end) else None
    ensures r.Some? ==> r.value >= pos
  {
    var offset := if size == DO_FIXED - 4 then 4 else 0;
    if size < DO_FIXED - offset || pos + DO_FIXED - offset > |f| {
      return None;
    }
    var desc := [0x50, 0x4B, 0x07, 0x08][..offset] + f[pos..pos + DO_FIXED - offset];
    assert forall k | offset <= k < DO_FIXED :: desc[k] == f[pos - offset + k];
    if Read32(desc, 0) != D_SIGNATURE || !CheckDescriptor(desc, 4, e) {
      return None;
    }
    return Some(pos + DO_FIXED - offset);
  }

  /** `load_local`, behind the fixed header and with `size` bytes to the next record: the
      data, and where the record ends. */
  method LoadLocal(f: seq<Byte>, e: Entry, size: nat, pedantic: bool) returns (ok: bool, loaded: Entry, pos: nat)
    requires e.offset + LO_FIXED <= |f|
    ensures e.offset + LO_FIXED + size <= |f| ==>
              var r := LocalRecord(f, e, e.offset + LO_FIXED + size, pedantic);
              ok == r.Record? && (ok ==> loaded == e.(data := Some(r.data)) && pos == r.end)
    ensures ok ==> pos >= e.offset + LO_FIXED && loaded == e.(data := loaded.data)
  {
    ok, loaded, pos := false, e, e.offset + LO_FIXED;
    if !CheckLocal(f, e.offset, e, pedantic) {
      return;
    }
    var localExtraLength := Read16(f, e.offset + 28);
    if size < |e.name| + localExtraLength {
      return;
    }
    var left := size - (|e.name| + localExtraLength);
    pos := pos + (|e.name| + localExtraLength);
    if left < e.compressedSize {
      return;
    }
    left := left - e.compressedSize;
    var data: seq<Byte> := [];
    if e.compressedSize > 0 {
      if pos + e.compressedSize > |f| {
        return;
      }
      data := f[pos..pos + e.compressedSize];
      pos := pos + e.compressedSize;
    }
    if HasDescriptor(Read16(f, e.offset + 6)) {
      var end := LoadDescriptor(f, e, pos, left);
      if end.None? {
        return;
      }
      pos := end.value;
    }
    ok, loaded := true, e.(data := Some(data));
  }

  /** `compressed_read`: the data in memory, or else read from the file of the entry. */
  method CompressedRead(e: Entry, parent: Option<seq<Byte>>, pedantic: bool) returns (r: Option<seq<Byte>>)
    ensures e.data.Some? ==> r == e.data
    ensures e.data.None? && parent.Some? ==>
              forall limit | 0 <= limit <= |parent.value| && LocalRecord(parent.value, e, limit, pedantic).Record? ::
                r == Some(LocalRecord(parent.value, e, limit, pedantic).data)
    ensures e.data.None? && parent.None? ==> r.None?
  {
    if e.data.Some? {
      return e.data;
    }
    if parent.None? {
      return None;
    }
    var f := parent.value;
    if e.offset + LO_FIXED > |f| || !CheckLocal(f, e.offset, e, pedantic) {
      return None;
    }
    var pos := e.offset + LO_FIXED + |e.name| + Read16(f, e.offset + 28);
    if e.compressedSize > 0 {
      if pos + e.compressedSize > |f| {
        return None;
      }
      return Some(f[pos..pos + e.compressedSize]);
    }
    return Some([]);
  }

  // ----- writing

  /** The fixed part of a local header. */
  method LocalBytes(e: Entry) returns (h: seq<Byte>)
    ensures |h| == LO_FIXED && LocalHeader(h, 0, e)
  {
    var buf := new Byte[LO_FIXED];
    Write32(buf, 0, L_SIGNATURE);
    Write8(buf, 4, e.versionNeeded);
    Write8(buf, 5, e.osNeeded);
    Write16(buf, 6, ClearDescriptor(e.flags));
    Write16(buf, 8, e.compression);
    Write16(buf, 10, e.time);
    Write16(buf, 12, e.date);
    Write32(buf, 14, e.crc);
    Write32(buf, 18, e.compressedSize);
    Write32(buf, 22, e.uncompressedSize);
    Write16(buf, 26, |e.name|);
    Write16(buf, 28, |e.localExtra|);
    h := buf[..];
  }

  /** The first fields of a directory header. */
  method WriteStamp(buf: array<Byte>, e: Entry)
    requires buf.Length == CO_FIXED
    modifies buf
    ensures CentStamp(buf[..], 0, e)
  {
    Write32(buf, 0, C_SIGNATURE);
    Write8(buf, 4, e.versionMadeBy);
    Write8(buf, 5, e.hostOs);
    Write8(buf, 6, e.versionNeeded);
    Write8(buf, 7, e.osNeeded);
    Write16(buf, 8, ClearDescriptor(e.flags));
    Write16(buf, 10, e.compression);
    Write16(buf, 12, e.time);
    Write16(buf, 14, e.date);
  }

  /** The other fields. */
  method WriteSizes(buf: array<Byte>, e: Entry)
    requires buf.Length == CO_FIXED
    modifies buf
    ensures CentSizes(buf[..], 0, e, e.offset)
    ensures forall k | 0 <= k < 16 :: buf[..][k] == old(buf[..][k])
  {
    Write32(buf, 16, e.crc);
    Write32(buf, 20, e.compressedSize);
    Write32(buf, 24, e.uncompressedSize);
    Write16(buf, 28, |e.name|);
    Write16(buf, 30, |e.centralExtra|);
    Write16(buf, 32, |e.comment|);
    Write16(buf, 34, 0);
    Write16(buf, 36, e.internalAttrib);
    Write32(buf, 38, e.externalAttrib);
    Write32(buf, 42, e.offset);
  }

  /** The fixed part of a directory header. */
  method CentBytes(e: Entry) returns (h: seq<Byte>)
    ensures |h| == CO_FIXED && CentHeader(h, 0, e, e.offset)
  {
    var buf := new Byte[CO_FIXED];
    WriteStamp(buf, e);
    WriteSizes(buf, e);
    h := buf[..];
  }

  /** `save_local`: false if the name is empty, because a write of no bytes fails. */
  method SaveLocal(e: Entry, f: seq<Byte>) returns (ok: bool, g: seq<Byte>, saved: Entry)
    requires e.data.Some? && |e.data.value| == e.compressedSize
    ensures ok == (e.name != []) && saved == e.(offset := |f|)
    ensures ok ==> f <= g && |g| == |f| + LocalSize(e) && LocalAt(g, |f|, e)
  {
    saved := e.(offset := |f|);
    var h := LocalBytes(e);
    if e.name == [] {
      return false, f, saved;
    }
    var tail := e.name + e.localExtra + e.data.value;
    g := f + h + tail;
    assert forall k | 0 <= k < LO_FIXED :: g[|f| + k] == h[k];
    assert g[|f| + LO_FIXED..|f| + LocalSize(e)] == tail;
    ok := true;
  }

  /** `save_cent` */
  method SaveCent(e: Entry, f: seq<Byte>) returns (ok: bool, g: seq<Byte>)
    ensures ok == (e.name != [])
    ensures ok ==> f <= g && |g| == |f| + CentSize(e) && CentAt(g, |f|, e, e.offset)
  {
    var h := CentBytes(e);
    if e.name == [] {
      return false, f;
    }
    var tail := e.name + e.centralExtra + e.comment;
    g := f + h + tail;
    assert forall k | 0 <= k < CO_FIXED :: g[|f| + k] == h[k];
    assert g[|f| + CO_FIXED..|f| + CentSize(e)] == tail;
    ok := true;
  }

  /** The end record of `count` entries whose directory is `f[start..]`, and the comment. */
  method SaveEnd(f: seq<Byte>, count: nat, start: nat, comment: seq<Byte>) returns (g: seq<Byte>)
    requires start <= |f|
    ensures f <= g && |g| == |f| + EO_FIXED + |comment| && EndAt(g, |f|, count, start, comment)
  {
    var buf := new Byte[EO_FIXED];
    Write32(buf, 0, E_SIGNATURE);
    Write16(buf, 4, 0);
    Write16(buf, 6, 0);
    Write16(buf, 8, count);
    Write16(buf, 10, count);
    Write32(buf, 12, |f| - start);
    Write32(buf, 16, start);
    Write16(buf, 20, |comment|);
    var h := buf[..];
    g := f + h + comment;
    assert forall k | 0 <= k < EO_FIXED :: g[|f| + k] == h[k];
    assert g[|f| + EO_FIXED..|f| + EO_FIXED + |comment|] == comment;
  }
}
