/** The converters between UTF-8 and UTF-16 (expat/xmltok.c:326-366, 524-585) and the loop
    that hands data over in pieces (expat/xmlparse.c:2526-2545): they stop in front of the
    first character without room, so whatever the sizes of the output buffers are, no
    character is split, lost or changed. */
module UtfConvert {
  import opened Endian
  import opened Unicode

  /** How many characters fit in `room`: the greatest number, see `FitMost`. */
  function Fit<T>(enc: Code -> seq<T>, cs: seq<Code>, room: nat): (k: nat)
    ensures k <= |cs|
  {
    if cs == [] || room < |enc(cs[0])| then 0 else 1 + Fit(enc, cs[1..], room - |enc(cs[0])|)
  }

  /** Nothing that fits is held back, and nothing is written behind the limit. */
  lemma {:induction false} FitMost<T>(enc: Code -> seq<T>, cs: seq<Code>, room: nat, k: nat)
    requires k <= |cs|
    ensures |Text(enc, cs[..k])| <= room <==> k <= Fit(enc, cs, room)
    decreases k
  {
    if k > 0 {
      assert cs[..k][1..] == cs[1..][..k - 1];
      if |enc(cs[0])| <= room {
        FitMost(enc, cs[1..], room - |enc(cs[0])|, k - 1);
      }
    }
  }

  /** The character at `at` in a UTF-8 text. */
  ghost predicate Reads8(from: seq<Byte>, at: nat, c: Code) {
    at + |Encode8(c)| <= |from| && from[at..at + |Encode8(c)|] == Encode8(c)
  }

  ghost predicate Reads16(from: seq<Unit>, at: nat, c: Code) {
    at + |Encode16(c)| <= |from| && from[at..at + |Encode16(c)|] == Encode16(c)
  }

  /** The units of a character of four bytes. */
  lemma Pair(c: Code, p: seq<Byte>)
    requires 0x1_0000 <= c && p == Encode8(c)
    ensures |p| == 4 && Width(p[0]) == 4 && Bits(p) == c
    ensures Encode16(c) == [(c - 0x1_0000) / 1024 + 0xD800, (c - 0x1_0000) % 1024 + 0xDC00]
  {
    EncodedBits(c);
    EncodedWidth(c);
  }

  /** The switch of `utf8_toUtf16` on the byte type: `n` bytes read, `m` units written. */
  method OneTo16(from: seq<Byte>, ptr: nat, ghost c: Code, to: array<Unit>, at: nat, toLim: nat)
    returns (n: nat, m: nat)
    requires Reads8(from, ptr, c) && at < toLim <= to.Length
    modifies to
    ensures m == (if toLim - at < |Encode16(c)| then 0 else |Encode16(c)|)
    ensures n == if m == 0 then 0 else |Encode8(c)|
    ensures to[at..at + m] == Encode16(c)[..m]
    ensures to[..at] == old(to[..at]) && to[at + m..] == old(to[at + m..])
  {
    ghost var p := Encode8(c);
    assert forall k | 0 <= k < |p| :: from[ptr + k] == p[k];
    EncodedWidth(c);
    if 0x80 <= c { EncodedBits(c); }
    var b0: int := from[ptr];
    n := Width(from[ptr]);
    if n == 1 {
      to[at] := b0;
      return 1, 1;
    }
    var b1: int := from[ptr + 1];
    if n == 2 {
      to[at] := b0 % 32 * 64 + b1 % 64;
      return 2, 1;
    }
    var b2: int := from[ptr + 2];
    if n == 3 {
      to[at] := b0 % 16 * 4096 + b1 % 64 * 64 + b2 % 64;
      return 3, 1;
    }
    Pair(c, p);
    if at + 1 == toLim {
      return 0, 0;
    }
    var b3: int := from[ptr + 3];
    var v := b0 % 8 * 0x4_0000 + b1 % 64 * 4096 + b2 % 64 * 64 + b3 % 64 - 0x1_0000;
    to[at], to[at + 1] := v / 1024 + 0xD800, v % 1024 + 0xDC00;
    return 4, 2;
  }

  /** The high and the low byte of a surrogate. */
  lemma HiLo(a: nat, base: nat)
    requires a < 1024 && (base == 0xD800 || base == 0xDC00)
    ensures (a + base) / 256 % 4 == a / 256 && (a + base) % 256 == a % 256
    ensures (a + base) / 256 == a / 256 + base / 256
  {
  }

  lemma By64(q: nat, r: nat)
    requires r < 64
    ensures (q * 64 + r) / 64 == q && (q * 64 + r) % 64 == r
  {
  }

  /** A number of ten bits, from its low byte and the bits above that. */
  lemma Ten64(q: nat, r: nat)
    requires r < 256
    ensures (q * 256 + r) / 64 == q * 4 + r / 64 && (q * 256 + r) % 64 == r % 64
  {
    By64(q * 4 + r / 64, r % 64);
  }

  lemma Ten4(q: nat, r: nat)
    requires r < 256
    ensures (q * 256 + r) / 4 == q * 64 + r / 4 && (q * 256 + r) % 4 == r % 4
  {
    var n := q * 64 + r / 4;
    assert q * 256 + r == n * 4 + r % 4;
  }

  lemma Ten16(q: nat, r: nat)
    requires r < 64
    ensures (q * 64 + r) % 16 == r % 16
  {
    var n := q * 4 + r / 16;
    assert q * 64 + r == n * 16 + r % 16;
  }

  lemma TenBits(a: nat)
    ensures a / 256 * 4 + a % 256 / 64 == a / 64 && a % 256 % 64 == a % 64
    ensures a % 256 / 4 % 16 == a / 4 % 16 && a % 256 % 4 == a % 4
  {
    var q, r := a / 256, a % 256;
    assert a == q * 256 + r;
    Ten64(q, r);
    Ten4(q, r);
    Ten16(q, r / 4);
  }

  /** The fields of the number that two surrogates carry. */
  lemma PlaneFields(a: nat, b: nat)
    requires a < 1024 && b < 1024
    ensures var c, plane := a * 1024 + b + 0x1_0000, a / 64 + 1;
            c / 0x4_0000 == plane / 4 && c / 4096 % 64 == a / 4 % 16 + plane % 4 * 16 &&
            c / 64 % 64 == a % 4 * 16 + b / 64 && c % 64 == b % 64
  {
    var plane := a / 64 + 1;
    var x, y := plane % 4 * 16 + a / 4 % 16, a % 4 * 16 + b / 64;
    assert a == a / 64 * 64 + a / 4 % 16 * 4 + a % 4;
    assert a * 1024 + b + 0x1_0000 == plane / 4 * 0x4_0000 + x * 4096 + y * 64 + b % 64;
    FieldsOf(plane / 4, x, y, b % 64);
  }

  function TwoBytes(hi: int, lo: int): seq<int> { [lo / 64 + hi * 4 + 0xC0, lo % 64 + 0x80] }

  function ThreeBytes(hi: int, lo: int): seq<int> {
    [hi / 16 + 0xE0, hi % 16 * 4 + lo / 64 + 0x80, lo % 64 + 0x80]
  }

  function FourBytes(hi: int, lo: int, hi2: int, lo2: int): seq<int> {
    var plane := hi % 4 * 4 + lo / 64 % 4 + 1;
    [plane / 4 + 0xF0, lo / 4 % 16 + plane % 4 * 16 + 0x80, lo % 4 * 16 + hi2 % 4 * 4 + lo2 / 64 + 0x80,
     lo2 % 64 + 0x80]
  }

  /** The bytes of a character that is one unit. */
  lemma UnitBytes(c: Code)
    requires 0x80 <= c < 0x1_0000
    ensures Encode8(c) == if c < 0x800 then TwoBytes(c / 256, c % 256) else ThreeBytes(c / 256, c % 256)
  {
    var hi, lo := c / 256, c % 256;
    By64(hi * 4 + lo / 64, lo % 64);
    By64(hi / 16, hi % 16 * 4 + lo / 64);
    assert c / 4096 == c / 64 / 64;
  }

  /** The four bytes in terms of the ten bits that each surrogate carries. */
  lemma SurrogateBytes(a: nat, b: nat)
    requires a < 1024 && b < 1024
    ensures FourBytes((a + 0xD800) / 256, (a + 0xD800) % 256, (b + 0xDC00) / 256, (b + 0xDC00) % 256) ==
            [(a / 64 + 1) / 4 + 0xF0, a / 4 % 16 + (a / 64 + 1) % 4 * 16 + 0x80, a % 4 * 16 + b / 64 + 0x80, b % 64 + 0x80]
  {
    HiLo(a, 0xD800);
    HiLo(b, 0xDC00);
    TenBits(a);
    TenBits(b);
    assert a % 256 / 64 % 4 == a % 256 / 64;
  }

  /** The bytes of a character that is a surrogate pair. */
  lemma PairBytes(c: Code)
    requires 0x1_0000 <= c
    ensures |Encode16(c)| == 2
    ensures var u, u2 := Encode16(c)[0] as int, Encode16(c)[1] as int;
            0xD8 <= u / 256 < 0xDC && Encode8(c) == FourBytes(u / 256, u % 256, u2 / 256, u2 % 256)
  {
    var a, b := (c - 0x1_0000) / 1024, (c - 0x1_0000) % 1024;
    assert c == a * 1024 + b + 0x1_0000 && a < 1024;
    SurrogateBytes(a, b);
    PlaneFields(a, b);
  }

  /** The switch of the UTF-16 converters on the high byte of a unit. */
  method OneTo8(from: seq<Unit>, ptr: nat, ghost c: Code, to: array<Byte>, at: nat, toLim: nat)
    returns (n: nat, m: nat)
    requires Reads16(from, ptr, c) && at <= toLim <= to.Length
    modifies to
    ensures m == (if toLim - at < |Encode8(c)| then 0 else |Encode8(c)|)
    ensures n == if m == 0 then 0 else |Encode16(c)|
    ensures to[at..at + m] == Encode8(c)[..m]
    ensures to[..at] == old(to[..at]) && to[at + m..] == old(to[at + m..])
  {
    assert forall k | 0 <= k < |Encode16(c)| :: from[ptr + k] == Encode16(c)[k];
    if 0x1_0000 <= c { PairBytes(c); } else if 0x80 <= c { UnitBytes(c); }
    var u: int := from[ptr];
    var hi, lo := u / 256, u % 256;
    if hi == 0 && lo < 0x80 {
      if at == toLim {
        return 0, 0;
      }
      to[at] := lo;
      return 1, 1;
    } else if hi < 8 {
      if toLim - at < 2 {
        return 0, 0;
      }
      var b := TwoBytes(hi, lo);
      to[at], to[at + 1] := b[0], b[1];
      return 1, 2;
    } else if !(0xD8 <= hi < 0xDC) {
      if toLim - at < 3 {
        return 0, 0;
      }
      var b := ThreeBytes(hi, lo);
      to[at], to[at + 1], to[at + 2] := b[0], b[1], b[2];
      return 1, 3;
    }
    if toLim - at < 4 {
      return 0, 0;
    }
    var u2: int := from[ptr + 1];
    var b := FourBytes(hi, lo, u2 / 256, u2 % 256);
    to[at], to[at + 1], to[at + 2], to[at + 3] := b[0], b[1], b[2], b[3];
    return 2, 4;
  }

  /** The text `from` behind its first `k` characters, when those take `used` units. */
  lemma Rest<T>(enc: Code -> seq<T>, cs: seq<Code>, from: seq<T>, k: nat, used: nat)
    requires from == Text(enc, cs) && k <= |cs| && used == |Text(enc, cs[..k])|
    ensures used <= |from| && from[used..] == Text(enc, cs[k..])
    ensures k == |cs| ==> used == |from|
    ensures k < |cs| ==> used + |enc(cs[k])| <= |from| && from[used..used + |enc(cs[k])|] == enc(cs[k])
    ensures k < |cs| ==> used + |enc(cs[k])| == |Text(enc, cs[..k + 1])|
  {
    if k < |cs| {
      TextAt(enc, cs, k);
      var n := |enc(cs[k])|;
      assert from[used..] == Text(enc, cs[k..]);
      assert from[used..][..n] == from[used..used + n];
    } else {
      assert cs[..k] == cs && cs[k..] == [];
    }
  }

  /** A sequence that goes on behind an unchanged start. */
  lemma Longer<T>(s: seq<T>, t: seq<T>, at: nat, end: nat, more: seq<T>)
    requires at <= end && end + |more| <= |t| == |s|
    requires t[..end] == s[..end] && t[end..end + |more|] == more
    ensures t[at..end + |more|] == s[at..end] + more
  {
    assert t[at..end] == t[..end][at..] == s[at..end];
  }

  /** A conversion with room for `room` units that has read `used` units, the first `k`
      characters, and has written `out`. */
  ghost predicate Upto<T, U>(src: Code -> seq<T>, dst: Code -> seq<U>, cs: seq<Code>, room: nat,
                             k: nat, used: nat, out: seq<U>)
  {
    forall x {:trigger Asked(x)} :: Asked(x) ==>
      k <= |cs| && used == |Text(src, cs[..k])| && out == Text(dst, cs[..k]) && |out| <= room &&
      k + Fit(dst, cs[k..], room - |out|) == Fit(dst, cs, room)
  }

  predicate Asked(x: int) { true }

  lemma UptoStart<T, U>(src: Code -> seq<T>, dst: Code -> seq<U>, cs: seq<Code>, room: nat)
    ensures Upto(src, dst, cs, room, 0, 0, [])
  {
    assert cs[0..] == cs;
  }

  lemma UptoRead<T, U>(src: Code -> seq<T>, dst: Code -> seq<U>, cs: seq<Code>, room: nat,
                       k: nat, used: nat, out: seq<U>)
    requires Upto(src, dst, cs, room, k, used, out)
    ensures k <= |cs| && used == |Text(src, cs[..k])|
  {
    assert Asked(0);
  }

  lemma UptoNext<T, U>(src: Code -> seq<T>, dst: Code -> seq<U>, cs: seq<Code>, room: nat,
                       k: nat, used: nat, out: seq<U>)
    requires Upto(src, dst, cs, room, k, used, out) && k < |cs| && |out| + |dst(cs[k])| <= room
    ensures Upto(src, dst, cs, room, k + 1, used + |src(cs[k])|, out + dst(cs[k]))
  {
    assert Asked(0);
    TextAt(src, cs, k);
    TextAt(dst, cs, k);
    assert cs[k..][1..] == cs[k + 1..];
  }

  /** What a whole conversion does: the characters that have room, read and written. */
  ghost predicate Converted<T, U>(src: Code -> seq<T>, dst: Code -> seq<U>, cs: seq<Code>, room: nat,
                                  used: nat, out: seq<U>)
  {
    var k := Fit(dst, cs, room);
    used == |Text(src, cs[..k])| && out == Text(dst, cs[..k])
  }

  /** A conversion stops where nothing is left, or in front of a character without room. */
  lemma UptoEnd<T, U>(src: Code -> seq<T>, dst: Code -> seq<U>, cs: seq<Code>, room: nat,
                      k: nat, used: nat, out: seq<U>)
    requires Upto(src, dst, cs, room, k, used, out)
    requires k <= |cs| && (k == |cs| || room < |out| + |dst(cs[k])|)
    ensures Converted(src, dst, cs, room, used, out)
  {
    assert Asked(0);
  }

  /** One turn of the loop of `Utf8ToUtf16`: the character behind the first `k`. */
  method Turn16(from: seq<Byte>, ghost cs: seq<Code>, ghost k: nat, ghost room: nat, used: nat, to: array<Unit>,
              ghost at: nat, end: nat, toLim: nat)
    returns (n: nat, m: nat)
    requires from == Text(Encode8, cs) && used != |from| && at <= end <= toLim <= to.Length && room == toLim - at && end < toLim
    requires Upto(Encode8, Encode16, cs, room, k, used, to[at..end]) == true
    modifies to
    ensures end + m <= toLim && to[..end] == old(to[..end]) && to[end + m..] == old(to[end + m..])
    ensures m == 0 ==> n == 0 && Converted(Encode8, Encode16, cs, room, used, to[at..end]) == true
    ensures m > 0 ==> k < |cs| && Upto(Encode8, Encode16, cs, room, k + 1, used + n, to[at..end + m]) == true
  {
    UptoRead(Encode8, Encode16, cs, room, k, used, to[at..end]);
    Rest(Encode8, cs, from, k, used);
    ghost var out, was := to[at..end], to[..];
    n, m := OneTo16(from, used, cs[k], to, end, toLim);
    assert to[at..end + m] == out + Encode16(cs[k])[..m] by {
      Longer(was, to[..], at, end, Encode16(cs[k])[..m]);
    }
    if m == 0 {
      UptoEnd(Encode8, Encode16, cs, room, k, used, out);
    } else {
      UptoNext(Encode8, Encode16, cs, room, k, used, out);
    }
  }

  /** `utf8_toUtf16` on the UTF-8 form of `cs`: the characters that have room are
      converted, and the next call goes on with the one behind them. */
  method Utf8ToUtf16(from: seq<Byte>, ghost cs: seq<Code>, to: array<Unit>, at: nat, toLim: nat)
    returns (used: nat, end: nat)
    requires from == Text(Encode8, cs) && at <= toLim <= to.Length
    modifies to
    ensures at <= end <= toLim && to[..at] == old(to[..at]) && to[end..] == old(to[end..])
    ensures Converted(Encode8, Encode16, cs, toLim - at, used, to[at..end])
  {
    used, end := 0, at;
    ghost var k, room := 0, toLim - at;
    UptoStart(Encode8, Encode16, cs, room);
    assert to[at..at] == [];
    while used != |from| && end != toLim
      invariant at <= end <= toLim && to[..at] == old(to[..at]) && to[end..] == old(to[end..])
      invariant k <= |cs| && Upto(Encode8, Encode16, cs, room, k, used, to[at..end]) == true
      decreases |cs| - k
    {
      ghost var was := to[..];
      var n, m := Turn16(from, cs, k, room, used, to, at, end, toLim);
      assert to[..at] == to[..end][..at] == was[..end][..at];
      assert to[end + m..] == was[end + m..] == was[end..][m..];
      if m == 0 {
        return;
      }
      used, end, k := used + n, end + m, k + 1;
    }
    UptoRead(Encode8, Encode16, cs, room, k, used, to[at..end]);
    Rest(Encode8, cs, from, k, used);
    UptoEnd(Encode8, Encode16, cs, room, k, used, to[at..end]);
  }

  /** One turn of the loop of `Utf16ToUtf8`: the character behind the first `k`. */
  method Turn8(from: seq<Unit>, ghost cs: seq<Code>, ghost k: nat, ghost room: nat, used: nat, to: array<Byte>,
              ghost at: nat, end: nat, toLim: nat)
    returns (n: nat, m: nat)
    requires from == Text(Encode16, cs) && used != |from| && at <= end <= toLim <= to.Length && room == toLim - at
    requires Upto(Encode16, Encode8, cs, room, k, used, to[at..end]) == true
    modifies to
    ensures end + m <= toLim && to[..end] == old(to[..end]) && to[end + m..] == old(to[end + m..])
    ensures m == 0 ==> n == 0 && Converted(Encode16, Encode8, cs, room, used, to[at..end]) == true
    ensures m > 0 ==> k < |cs| && Upto(Encode16, Encode8, cs, room, k + 1, used + n, to[at..end + m]) == true
  {
    UptoRead(Encode16, Encode8, cs, room, k, used, to[at..end]);
    Rest(Encode16, cs, from, k, used);
    ghost var out, was := to[at..end], to[..];
    n, m := OneTo8(from, used, cs[k], to, end, toLim);
    assert to[at..end + m] == out + Encode8(cs[k])[..m] by {
      Longer(was, to[..], at, end, Encode8(cs[k])[..m]);
    }
    if m == 0 {
      UptoEnd(Encode16, Encode8, cs, room, k, used, out);
    } else {
      UptoNext(Encode16, Encode8, cs, room, k, used, out);
    }
  }

  /** `little2_toUtf8` and `big2_toUtf8` on the UTF-16 form of `cs`. */
  method Utf16ToUtf8(from: seq<Unit>, ghost cs: seq<Code>, to: array<Byte>, at: nat, toLim: nat)
    returns (used: nat, end: nat)
    requires from == Text(Encode16, cs) && at <= toLim <= to.Length
    modifies to
    ensures at <= end <= toLim && to[..at] == old(to[..at]) && to[end..] == old(to[end..])
    ensures Converted(Encode16, Encode8, cs, toLim - at, used, to[at..end])
  {
    used, end := 0, at;
    ghost var k, room := 0, toLim - at;
    UptoStart(Encode16, Encode8, cs, room);
    assert to[at..at] == [];
    while used != |from|
      invariant at <= end <= toLim && to[..at] == old(to[..at]) && to[end..] == old(to[end..])
      invariant k <= |cs| && Upto(Encode16, Encode8, cs, room, k, used, to[at..end]) == true
      decreases |cs| - k
    {
      ghost var was := to[..];
      var n, m := Turn8(from, cs, k, room, used, to, at, end, toLim);
      assert to[..at] == to[..end][..at] == was[..end][..at];
      assert to[end + m..] == was[end + m..] == was[end..][m..];
      if m == 0 {
        return;
      }
      used, end, k := used + n, end + m, k + 1;
    }
    UptoRead(Encode16, Encode8, cs, room, k, used, to[at..end]);
    Rest(Encode16, cs, from, k, used);
    UptoEnd(Encode16, Encode8, cs, room, k, used, to[at..end]);
  }

  lemma AllRead<T>(src: Code -> seq<T>, cs: seq<Code>, k: nat)
    requires k <= |cs| && |Text(src, cs[..k])| == |Text(src, cs)|
    requires forall c :: src(c) != []
    ensures k == |cs| && cs[..k] == cs
  {
    if k < |cs| {
      TextAt(src, cs, k);
    }
  }

  /** A conversion that has read everything has written everything. */
  lemma ReadIsWritten<T, U>(src: Code -> seq<T>, dst: Code -> seq<U>, cs: seq<Code>, room: nat, used: nat, out: seq<U>)
    requires Converted(src, dst, cs, room, used, out) && used == |Text(src, cs)|
    requires forall c :: src(c) != []
    ensures out == Text(dst, cs)
  {
    AllRead(src, cs, Fit(dst, cs, room));
  }

  /** The two converters are inverse to each other: what one has made of a whole text, the
      other turns back into the bytes or units it came from. */
  lemma Inverse<T, U>(src: Code -> seq<T>, dst: Code -> seq<U>, cs: seq<Code>, there: seq<U>, m: nat,
                      ds: seq<Code>, back: seq<T>, n: nat)
    requires PrefixFree(src) && PrefixFree(dst)
    requires Converted(src, dst, cs, m, |Text(src, cs)|, there)
    requires there == Text(dst, ds) && Converted(dst, src, ds, n, |there|, back)
    ensures back == Text(src, cs)
  {
    ReadIsWritten(src, dst, cs, m, |Text(src, cs)|, there);
    ReadIsWritten(dst, src, ds, n, |there|, back);
    TextInjective(dst, cs, ds);
  }

  /** Calls with the output limits `rooms`, each on what the one before has not read: the
      number of characters that all of them convert. */
  function FitAll<T>(enc: Code -> seq<T>, cs: seq<Code>, rooms: seq<nat>): (k: nat)
    ensures k <= |cs|
  {
    if rooms == [] then 0
    else
      var n := Fit(enc, cs, rooms[0]);
      n + FitAll(enc, cs[n..], rooms[1..])
  }

  /** What those calls write. */
  function Pieces<T>(enc: Code -> seq<T>, cs: seq<Code>, rooms: seq<nat>): seq<T> {
    if rooms == [] then []
    else
      var n := Fit(enc, cs, rooms[0]);
      Text(enc, cs[..n]) + Pieces(enc, cs[n..], rooms[1..])
  }

  /** Resuming loses nothing, whatever the limits are: the calls write whole characters in
      order, at least one each while there is room for it and something left. */
  lemma {:induction false} Resumed<T>(enc: Code -> seq<T>, cs: seq<Code>, rooms: seq<nat>)
    ensures Pieces(enc, cs, rooms) == Text(enc, cs[..FitAll(enc, cs, rooms)])
  {
    if rooms != [] {
      var n := Fit(enc, cs, rooms[0]);
      var rest := cs[n..];
      var k := FitAll(enc, rest, rooms[1..]);
      Resumed(enc, rest, rooms[1..]);
      assert cs[..n + k] == cs[..n] + rest[..k];
      TextConcat(enc, cs[..n], rest[..k]);
    }
  }

  /** With room for any character in every call, each call goes on. */
  lemma {:induction false} ResumedAll<T>(enc: Code -> seq<T>, cs: seq<Code>, rooms: seq<nat>, most: nat)
    requires forall c :: |enc(c)| <= most
    requires (forall i | 0 <= i < |rooms| :: most <= rooms[i]) && |cs| <= |rooms|
    ensures FitAll(enc, cs, rooms) == |cs| && Pieces(enc, cs, rooms) == Text(enc, cs)
  {
    Resumed(enc, cs, rooms);
    if rooms != [] {
      var n := Fit(enc, cs, rooms[0]);
      assert cs != [] ==> |enc(cs[0])| <= most <= rooms[0];
      ResumedAll(enc, cs[n..], rooms[1..], most);
    }
    assert cs[..|cs|] == cs;
  }

  function Flat<T>(calls: seq<seq<T>>): seq<T> {
    if calls == [] then [] else Flat(calls[..|calls| - 1]) + calls[|calls| - 1]
  }

  /** One call of that loop: `out` is `n` characters more. */
  lemma NextPiece(cs: seq<Code>, k: nat, used: nat, out: seq<Byte>, room: nat) returns (n: nat)
    requires k <= |cs| && 4 <= room && Converted(Encode16, Encode8, cs[k..], room, used, out)
    ensures k + n <= |cs| && (k < |cs| ==> n > 0) && out == Utf8(cs[k..][..n])
    ensures |Utf16(cs[..k])| + used == |Utf16(cs[..k + n])|
    ensures Utf8(cs[..k]) + out == Utf8(cs[..k + n])
  {
    n := Fit(Encode8, cs[k..], room);
    var part := cs[k..][..n];
    assert cs[..k + n] == cs[..k] + part;
    TextConcat(Encode16, cs[..k], part);
    TextConcat(Encode8, cs[..k], part);
  }

  /** Handler calls that get the text `cs` in pieces of whole characters. */
  ghost predicate Reported(calls: seq<seq<Byte>>, cs: seq<Code>) {
    Flat(calls) == Utf8(cs) && forall i | 0 <= i < |calls| :: exists part :: calls[i] == Utf8(part)
  }

  lemma OneMore(calls: seq<seq<Byte>>, cs: seq<Code>, k: nat, n: nat, data: seq<Byte>)
    requires k + n <= |cs| && Reported(calls, cs[..k]) && data == Utf8(cs[k..][..n])
    requires Utf8(cs[..k]) + data == Utf8(cs[..k + n])
    ensures Reported(calls + [data], cs[..k + n])
  {
    assert (calls + [data])[..|calls|] == calls;
  }

  /** The loop that reports character data (expat/xmlparse.c:2526-2545) over UTF-16 input
      and a buffer with room for a character: the handler gets the whole text, and no call
      gets part of a character. */
  method ReportData(from: seq<Unit>, ghost cs: seq<Code>, dataBuf: array<Byte>) returns (calls: seq<seq<Byte>>)
    requires from == Utf16(cs) && dataBuf.Length >= 4
    modifies dataBuf
    ensures Reported(calls, cs)
  {
    calls := [];
    var s := 0;
    ghost var k := 0;
    while true
      invariant k <= |cs| && s == |Utf16(cs[..k])| && Reported(calls, cs[..k]) == true
      decreases |cs| - k
    {
      Rest(Encode16, cs, from, k, s);
      var used, dataPtr := Utf16ToUtf8(from[s..], cs[k..], dataBuf, 0, dataBuf.Length);
      var data := dataBuf[..dataPtr];
      ghost var n := NextPiece(cs, k, used, data, dataBuf.Length);
      OneMore(calls, cs, k, n, data);
      calls := calls + [data];
      s, k := s + used, k + n;
      if s == |from| {
        Free();
        AllRead(Encode16, cs, k);
        return;
      }
    }
  }
}
