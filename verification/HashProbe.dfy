/** The probe sequence of the hash tables (expat/xmlparse.c:88-114, 5735-5742): an odd step
    through a table whose size is a power of two visits every slot. */
module HashProbe {
  import opened Endian

  /** A name, without its terminator. */
  type Key = seq<Byte>

  function Pow2(p: nat): (n: nat)
    ensures n >= 1
  {
    if p == 0 then 1 else 2 * Pow2(p - 1)
  }

  /** `^` */
  function Xor(a: nat, b: nat): nat
    decreases a + b
  {
    if a == 0 && b == 0 then 0 else (a % 2 + b % 2) % 2 + 2 * Xor(a / 2, b / 2)
  }

  /** `hash`, in 64 bits. */
  function Hash(name: Key): nat {
    if name == [] then 0
    else Xor(Hash(name[..|name| - 1]) * 0xF4243 % 0x1_0000_0000_0000_0000, name[|name| - 1])
  }

  method HashKey(s: Key) returns (h: nat)
    ensures h == Hash(s)
  {
    h := 0;
    var i := 0;
    while i < |s|
      invariant 0 <= i <= |s| && h == Hash(s[..i])
    {
      assert s[..i + 1][..i] == s[..i];
      h := Xor(h * 0xF4243 % 0x1_0000_0000_0000_0000, s[i]);
      i := i + 1;
    }
    assert s[..i] == s;
  }

  /** `hash & mask` in a table of `n` slots. */
  function Home(h: nat, n: nat): (i: nat)
    requires n > 0
    ensures i < n
  {
    h % n
  }

  /** The bits above the mask, `hash & ~mask` shifted down. */
  function High(h: nat, n: nat): nat
    requires n > 0
  {
    h / n
  }

  /** PROBE_STEP in a table of `n` slots: the bits of the hash above the mask, at most a
      quarter of the size, made odd and cut to a byte. */
  function ProbeStep(h: nat, n: nat): nat
    requires n >= 4
  {
    StepOf(High(h, n), n / 4)
  }

  function StepOf(high: nat, quarter: nat): nat
    requires quarter > 0
  {
    (2 * high % quarter + 1) % 256
  }

  /** `i < step ? i += size - step : i -= step` */
  function Next(i: nat, step: nat, n: nat): (j: nat)
    requires i < n && step <= n
    ensures step < n ==> j < n
  {
    if i < step then i + n - step else i - step
  }

  lemma StepSmall(h: nat, n: nat)
    requires n >= 64
    ensures ProbeStep(h, n) < n
  {
  }

  /** The `k`-th slot that is tried for a hash. */
  function Probe(h: nat, n: nat, k: nat): (i: nat)
    requires n >= 64
    ensures i < n
  {
    StepSmall(h, n);
    if k == 0 then Home(h, n) else Next(Probe(h, n, k - 1), ProbeStep(h, n), n)
  }

  /** The slots tried for a hash, in order. */
  type Probes = nat -> nat

  function ProbesOf(h: nat, n: nat): Probes {
    (k: nat) => if n >= 64 then Probe(h, n, k) else 0
  }

  /** The sizes a table can have: INIT_POWER is 6. */
  ghost predicate IsSize(n: nat) { exists p: nat :: p >= 6 && n == Pow2(p) }

  lemma SizeGrows(n: nat, p: nat)
    requires p >= 6 && n == Pow2(p)
    ensures n >= 64 && n == 16 * (n / 16) && IsSize(n)
    ensures Pow2(p + 1) == 2 * n && Pow2(p - 1) == n / 2
  {
    SizeIs(p);
  }

  lemma {:induction false} SizeIs(p: nat)
    requires p >= 6
    ensures Pow2(p) >= 64 && Pow2(p) % 16 == 0
  {
    if p == 6 {
      assert Pow2(4) == 16;
      assert Pow2(6) == 64;
    } else {
      SizeIs(p - 1);
    }
  }

  lemma EvenRemainder(x: nat, m: nat)
    requires m > 0
    ensures 2 * x % (2 * m) == 2 * (x % m)
  {
    var q, r := x / m, x % m;
    assert 2 * x == 2 * m * q + 2 * r;
    RemainderIs(2 * x, 2 * m, q, 2 * r);
  }

  lemma RemainderIs(x: int, m: nat, q: int, r: nat)
    requires r < m && x == m * q + r
    ensures x % m == r
  {
    var q', r' := x / m, x % m;
    assert m * (q - q') == r' - r;
    if q > q' {
      MulAtLeast(m, q - q');
    } else if q < q' {
      MulAtLeast(m, q' - q);
    }
  }

  lemma MulAtLeast(m: nat, k: nat)
    requires k >= 1
    ensures m * k >= m
  {
    assert m * k == m * (k - 1) + m;
  }

  /** The step is odd and within the table. */
  lemma StepOdd(h: nat, n: nat)
    requires IsSize(n)
    ensures n >= 64 && ProbeStep(h, n) % 2 == 1 && ProbeStep(h, n) < n
  {
    var p: nat :| p >= 6 && n == Pow2(p);
    SizeGrows(n, p);
    StepOfOdd(High(h, n), n / 4, n / 8);
  }

  lemma StepOfOdd(high: nat, quarter: nat, m: nat)
    requires m > 0 && quarter == 2 * m
    ensures StepOf(high, quarter) % 2 == 1 && StepOf(high, quarter) < quarter
  {
    EvenRemainder(high, m);
    OddByte(high % m);
  }

  lemma OddByte(r: nat)
    ensures (2 * r + 1) % 256 % 2 == 1 && (2 * r + 1) % 256 <= 2 * r + 1
  {
  }

  /** An odd number has no common factor with a power of two. */
  lemma {:induction false} OddCancels(s: nat, d: nat, p: nat, q: int)
    requires s % 2 == 1 && s * d == q * Pow2(p)
    ensures exists e: nat :: d == e * Pow2(p)
  {
    if p == 0 {
      assert d == d * Pow2(0);
    } else {
      var half := d / 2;
      var t, n := s / 2, Pow2(p - 1);
      assert s * d == 2 * (t * d) + d;
      assert q * Pow2(p) == 2 * (q * n);
      assert d == 2 * half;
      assert s * d == 2 * (s * half);
      assert s * half == q * n;
      OddCancels(s, half, p - 1, q);
      var e: nat :| half == e * n;
      assert d == e * Pow2(p);
    }
  }

  /** Where the `k`-th probe is, up to multiples of the size. */
  lemma {:induction false} ProbeForm(h: nat, n: nat, k: nat) returns (q: int)
    requires n >= 64
    ensures Probe(h, n, k) == Home(h, n) - k * ProbeStep(h, n) + q * n
  {
    if k == 0 {
      q := 0;
    } else {
      var s := ProbeStep(h, n);
      q := ProbeForm(h, n, k - 1);
      assert (k - 1) * s == k * s - s;
      if Probe(h, n, k - 1) < s {
        assert (q + 1) * n == q * n + n;
        q := q + 1;
      }
    }
  }

  /** The first `n` probes are all different: so they are all the slots there are. */
  lemma ProbesDistinct(h: nat, n: nat, i: nat, j: nat)
    requires IsSize(n) && i < j < n
    ensures n >= 64 && Probe(h, n, i) != Probe(h, n, j)
  {
    StepOdd(h, n);
    if Probe(h, n, i) == Probe(h, n, j) {
      var a := ProbeForm(h, n, i);
      var b := ProbeForm(h, n, j);
      var s := ProbeStep(h, n);
      StepOdd(h, n);
      var p: nat :| p >= 6 && n == Pow2(p);
      assert s * (j - i) == (b - a) * n by {
        assert s * (j - i) == j * s - i * s;
        assert (b - a) * n == b * n - a * n;
      }
      OddCancels(s, j - i, p, b - a);
      var e: nat :| j - i == e * n;
      if e > 0 {
        MulAtLeast(n, e);
      }
    }
  }
}
