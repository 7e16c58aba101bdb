/** Reading the central directory (zip.cc:458-470, 682-725, 811-898): which files it
    accepts, and that it reads one directory from each. */
module ZipDirectory {
  import opened Wrappers
  import opened Endian
  import opened ZipFormat
  import opened ZipSearch

  /** What `open` takes from a file. */
  datatype Dir = Dir(entries: seq<Entry>, start: nat, comment: seq<Byte>)

  /** The entry that can be read at a position of a directory, if there is one. */
  type Reader = nat -> Option<Entry>

  function ReaderOf(data: seq<Byte>): Reader {
    (p: nat) => if CentFits(data, p) then Some(CentEntry(data, p)) else None
  }

  /** Consecutive headers from the start, each read as its entry. */
  ghost predicate Headers(read: Reader, es: seq<Entry>) {
    forall i {:trigger read(CentPos(es, 0, i))} | 0 <= i < |es| :: read(CentPos(es, 0, i)) == Some(es[i])
  }

  /** The end record at `p`. */
  ghost predicate EndRecord(data: seq<Byte>, p: nat, start: nat, comment: seq<Byte>, pedantic: bool) {
    && p + EO_FIXED + |comment| <= |data|
    && Read32(data, p) == E_SIGNATURE
    && Read32(data, p + 16) == start
    && Read16(data, p + 20) == |comment|
    && data[p + EO_FIXED..p + EO_FIXED + |comment|] == comment
    && (pedantic ==> p + EO_FIXED + |comment| == |data|)
  }

  ghost predicate Directory(data: seq<Byte>, d: Dir, pedantic: bool) {
    && Headers(ReaderOf(data), d.entries)
    && EndRecord(data, CentPos(d.entries, 0, |d.entries|), d.start, d.comment, pedantic)
  }

  /** The file has the directory `d`: it starts where the last end record in the window
      says, and its own end record says so too. */
  ghost predicate Opens(f: seq<Byte>, d: Dir, pedantic: bool) {
    && d.start < |f|
    && (exists p: nat :: Found(f, p) && Read32(f, p + 16) == d.start)
    && Directory(f[d.start..], d, pedantic)
  }

  lemma {:induction false} CentPosAgrees(es: seq<Entry>, fs: seq<Entry>, i: nat)
    requires i <= |es| && i <= |fs| && forall k | 0 <= k < i :: es[k] == fs[k]
    ensures CentPos(es, 0, i) == CentPos(fs, 0, i)
  {
    if i > 0 {
      CentPosAgrees(es, fs, i - 1);
    }
  }

  lemma HeaderSame(read: Reader, es: seq<Entry>, fs: seq<Entry>, i: nat)
    requires |fs| == |es| + 1 && i <= |es| && forall k | 0 <= k < |es| :: es[k] == fs[k]
    requires Headers(read, es) && read(CentPos(es, 0, |es|)) == Some(fs[|es|])
    ensures read(CentPos(fs, 0, i)) == Some(fs[i])
  {
    CentPosAgrees(es, fs, i);
    if i < |es| {
      assert read(CentPos(es, 0, i)) == Some(es[i]);
    }
  }

  /** One more header. */
  lemma HeadersSnoc(read: Reader, es: seq<Entry>, fs: seq<Entry>)
    requires |fs| == |es| + 1 && forall k | 0 <= k < |es| :: es[k] == fs[k]
    requires Headers(read, es) && read(CentPos(es, 0, |es|)) == Some(fs[|es|])
    ensures Headers(read, fs) && CentPos(fs, 0, |fs|) == CentPos(es, 0, |es|) + CentSize(fs[|es|])
  {
    CentPosAgrees(es, fs, |es|);
    forall i {:trigger read(CentPos(fs, 0, i))} | 0 <= i < |fs|
      ensures read(CentPos(fs, 0, i)) == Some(fs[i])
    {
      HeaderSame(read, es, fs, i);
    }
  }

  /** Headers that were read are a beginning of every directory of the same bytes. */
  lemma {:induction false} HeadersDetermined(read: Reader, es: seq<Entry>, ds: seq<Entry>, n: nat)
    requires Headers(read, es) && Headers(read, ds) && read(CentPos(ds, 0, |ds|)).None? && n <= |es|
    ensures n <= |ds| && ds[..n] == es[..n] && CentPos(ds, 0, n) == CentPos(es, 0, n)
  {
    if n > 0 {
      HeadersDetermined(read, es, ds, n - 1);
      assert read(CentPos(es, 0, n - 1)) == Some(es[n - 1]);
      assert n <= |ds|;
      assert read(CentPos(ds, 0, n - 1)) == Some(ds[n - 1]);
      assert ds[..n] == ds[..n - 1] + [es[n - 1]];
      assert es[..n] == es[..n - 1] + [es[n - 1]];
    }
  }

  /** No header can be read where an end record is. */
  lemma NoHeaderAtEnd(data: seq<Byte>, p: nat)
    requires p + 4 <= |data| && Read32(data, p) != C_SIGNATURE
    ensures ReaderOf(data)(p).None?
  {
  }

  lemma HeadersUnique(read: Reader, es: seq<Entry>, ds: seq<Entry>)
    requires Headers(read, es) && read(CentPos(es, 0, |es|)).None?
    requires Headers(read, ds) && read(CentPos(ds, 0, |ds|)).None?
    ensures ds == es
  {
    HeadersDetermined(read, es, ds, |es|);
    HeadersDetermined(read, ds, es, |ds|);
    assert ds[..|es|] == ds && es[..|es|] == es;
  }

  /** The headers up to where none can be read are those of every directory. */
  lemma HeadersOf(data: seq<Byte>, es: seq<Entry>, d: Dir, pedantic: bool)
    requires Headers(ReaderOf(data), es) && Directory(data, d, pedantic)
    requires ReaderOf(data)(CentPos(es, 0, |es|)).None?
    ensures d.entries == es
  {
    var end := CentPos(d.entries, 0, |d.entries|);
    assert Read32(data, end) == E_SIGNATURE;
    NoHeaderAtEnd(data, end);
    HeadersUnique(ReaderOf(data), es, d.entries);
  }

  /** The directories of a file are those from the start that the end record at `p` declares. */
  lemma OpensIff(f: seq<Byte>, p: nat, pedantic: bool)
    requires Found(f, p) && Read32(f, p + 16) < |f|
    ensures forall d: Dir :: Opens(f, d, pedantic) <==>
              Directory(f[Read32(f, p + 16)..], d, pedantic) && d.start == Read32(f, p + 16)
  {
    LastSigUnique(f, p);
  }
}
