/** The search for the end record of the central directory (zip.cc:44-147). */
module ZipSearch {
  import opened Wrappers
  import opened Endian
  import opened ZipFormat

  const ECD_READ_BUFFER_SIZE := 4096

  /** `ecd_compare_sig` */
  predicate SigAt(f: seq<Byte>, i: nat)
    requires i + 4 <= |f|
  {
    f[i] == 0x50 && f[i + 1] == 0x4B && f[i + 2] == 0x05 && f[i + 3] == 0x06
  }

  lemma SigRead(f: seq<Byte>, i: nat)
    requires i + 4 <= |f|
    ensures SigAt(f, i) <==> Read32(f, i) == E_SIGNATURE
  {
  }

  /** The last signature in the file that has room for an end record behind it. */
  ghost predicate IsLastSig(f: seq<Byte>, p: nat) {
    && p + EO_FIXED <= |f|
    && SigAt(f, p)
    && NoSig(f, p + 1)
  }

  ghost predicate NoSig(f: seq<Byte>, from: nat) {
    forall j | from <= j && j + EO_FIXED <= |f| :: !SigAt(f, j)
  }

  /** `ecd_find_sig`: backwards, so the last signature. */
  method EcdFindSig(buffer: seq<Byte>) returns (found: bool, offset: nat)
    ensures found ==> IsLastSig(buffer, offset)
    ensures !found ==> NoSig(buffer, 0)
  {
    var i := |buffer| - EO_FIXED;
    while i >= 0
      invariant -EO_FIXED <= i <= |buffer| - EO_FIXED
      invariant forall j: nat | i < j && j + EO_FIXED <= |buffer| :: !SigAt(buffer, j)
    {
      if SigAt(buffer, i) {
        return true, i;
      }
      i := i - 1;
    }
    return false, 0;
  }

  /** How many of the last bytes of a file of `length` bytes are searched at most: 32768,
      and as many more as align the start of the buffer. */
  function Window(length: nat): nat {
    var most := 8 * ECD_READ_BUFFER_SIZE + length % ECD_READ_BUFFER_SIZE;
    if length < most then length else most
  }

  /** The buffer of the last `n` bytes starts at a multiple of 4096. */
  predicate Aligned(n: nat, length: nat) { n % 4096 == length % 4096 }

  /** The size of the first buffer. */
  function FirstBuffer(length: nat): (n: nat)
    ensures n <= length && Aligned(n, length)
    ensures n < 2 * ECD_READ_BUFFER_SIZE && (n == length || n >= ECD_READ_BUFFER_SIZE)
  {
    if length <= ECD_READ_BUFFER_SIZE then length
    else length - (length - ECD_READ_BUFFER_SIZE) / ECD_READ_BUFFER_SIZE * ECD_READ_BUFFER_SIZE
  }

  /** The last signature in a buffer that holds the end of the file. */
  lemma SigShifted(f: seq<Byte>, k: nat, p: nat)
    requires k <= |f| && IsLastSig(f[k..], p)
    ensures IsLastSig(f, k + p)
  {
    assert forall j | k + p + 1 <= j && j + EO_FIXED <= |f| :: SigAt(f, j) <==> SigAt(f[k..], j - k);
  }

  lemma NoSigShifted(f: seq<Byte>, k: nat)
    requires k <= |f| && NoSig(f[k..], 0)
    ensures NoSig(f, k)
  {
    assert forall j | k <= j && j + EO_FIXED <= |f| :: SigAt(f, j) <==> SigAt(f[k..], j - k);
  }

  /** The position `p` is the one that a search of the whole file finds, and inside the window. */
  ghost predicate Found(f: seq<Byte>, p: nat) {
    IsLastSig(f, p) && |f| - Window(|f|) <= p
  }

  /** A buffer of a size that the search can reach is within the window, and the last one is
      the window. */
  lemma Reached(length: nat, n: nat)
    requires n <= length && Aligned(n, length) && n < 9 * ECD_READ_BUFFER_SIZE
    ensures n <= Window(length)
    ensures n >= 8 * ECD_READ_BUFFER_SIZE || n == length ==> n == Window(length)
    ensures n < length ==> n + ECD_READ_BUFFER_SIZE <= length && Aligned(n + ECD_READ_BUFFER_SIZE, length)
  {
  }

  /** The directory of the end record found at `offset` of the buffer, which holds the file
      from `bufPos` on. */
  method CopyDirectory(f: seq<Byte>, buf: seq<Byte>, bufPos: nat, offset: nat) returns (data: Option<seq<Byte>>)
    requires bufPos <= |f| && buf == f[bufPos..] && offset + EO_FIXED <= |buf|
    ensures var start := Read32(f, bufPos + offset + 16);
            data == if start < |f| then Some(f[start..]) else None
  {
    var start := Read32(buf, offset + 16);
    if start >= |f| {
      return None;
    }
    if bufPos <= start {
      data := Some(buf[start - bufPos..]);
    } else {
      data := Some(f[start..]);
    }
  }

  /** `cent_read`, on a file that can be read: from the start that the last end record
      declares, to the end of the file. */
  method CentRead(f: seq<Byte>) returns (data: Option<seq<Byte>>)
    ensures data.Some? ==> exists p: nat :: Found(f, p) && Read32(f, p + 16) < |f| && data.value == f[Read32(f, p + 16)..]
    ensures data.None? ==> forall p: nat :: Found(f, p) ==> Read32(f, p + 16) >= |f|
  {
    var length := |f|;
    var bufLength := FirstBuffer(length);
    while true
      invariant bufLength <= length && Aligned(bufLength, length)
      invariant bufLength < 9 * ECD_READ_BUFFER_SIZE && (bufLength == 0 ==> length == 0)
      decreases 9 * ECD_READ_BUFFER_SIZE - bufLength
    {
      Reached(length, bufLength);
      if bufLength > length {
        bufLength := length;
      }
      if bufLength == 0 {
        return None;
      }
      var bufPos := length - bufLength;
      var buf := f[bufPos..];
      var found, offset := EcdFindSig(buf);
      if found {
        SigShifted(f, bufPos, offset);
        assert Found(f, bufPos + offset);
        LastSigUnique(f, bufPos + offset);
        data := CopyDirectory(f, buf, bufPos, offset);
        return;
      }
      if bufLength < 8 * ECD_READ_BUFFER_SIZE && bufLength < length {
        bufLength := bufLength + ECD_READ_BUFFER_SIZE;
      } else {
        NoSigShifted(f, bufPos);
        return None;
      }
    }
  }

  lemma LastSigUnique(f: seq<Byte>, p: nat)
    requires IsLastSig(f, p)
    ensures forall q :: IsLastSig(f, q) ==> q == p
  {
  }
}
