// The portable bit scans: shift-halving loops over 32-bit words.

module BitScan {
  import opened Machine

  // Position of the lowest set bit.
  ghost predicate IsLowestSetBit(n: nat, r: nat) {
    n % Pow2(r) == 0 && n % Pow2(r + 1) != 0
  }

  // Dividing n by p gives value.
  ghost predicate ScaledDown(n: nat, p: nat, value: nat) {
    value * p <= n < (value + 1) * p
  }

  // floor(log2(n)); -1 iff n == 0.
  method Log2Floor(n: uint32) returns (log: int)
    ensures n == 0 <==> log == -1
    ensures n != 0 ==> 0 <= log < 32 && Pow2(log) <= n < Pow2(log + 1)
  {
    hide ScaledDown, Pow2;
    if n == 0 {
      return -1;
    }
    log := 0;
    var value: uint32 := n;
    var i := 4;
    Pow2Values();
    Pow2Zero();
    Pow2Step(4);
    ScaledByOne(n);
    while i >= 0
      invariant -1 <= i <= 4
      invariant 0 <= log && log + Pow2(i + 1) <= 32
      invariant 0 < value < Pow2(Pow2(i + 1))
      invariant ScaledDown(n, Pow2(log), value)
    {
      Pow2Step(i);
      var shift := Pow2(i);
      QuotientNonNegative(value, Pow2(shift));
      HalveOnce(value, shift);
      var x: nat := value / Pow2(shift);
      if x != 0 {
        ScaleAgain(n, Pow2(log), value, Pow2(shift));
        Pow2Add(log, shift);
        value := x;
        log := log + shift;
      }
      i := i - 1;
    }
    assert value == 1;
    Pow2Step(log);
    ScaledToOne(n, Pow2(log));
  }

  lemma ScaledByOne(n: nat)
    ensures ScaledDown(n, 1, n)
  {}

  lemma ScaledToOne(n: nat, p: nat)
    requires ScaledDown(n, p, 1)
    ensures p <= n < 2 * p
  {}

  lemma HalveOnce(value: uint32, shift: nat)
    requires value < Pow2(2 * shift)
    ensures value / Pow2(shift) < Pow2(shift) && value / Pow2(shift) <= value
    ensures value / Pow2(shift) == 0 ==> value < Pow2(shift)
  {
    hide Pow2;
    Pow2Add(shift, shift);
    Quotient(value, Pow2(shift));
  }

  lemma Quotient(v: nat, p: nat)
    requires p > 0 && v < p * p
    ensures v / p < p && v / p <= v && (v / p == 0 ==> v < p)
  {
    DivMod(v, p);
    QuotientNonNegative(v, p);
    QuotientBounds(v, p, v / p, v % p);
  }

  lemma QuotientBounds(v: nat, p: nat, k: nat, r: nat)
    requires v == k * p + r && r < p && v < p * p
    ensures k < p && k <= v && (k == 0 ==> v < p)
  {
    if k >= p {
      MulMonotone(p, k, p);
    }
    MulMonotone(1, p, k);
  }

  lemma ScaleAgain(n: nat, q: nat, value: nat, p: nat)
    requires p > 0 && ScaledDown(n, q, value)
    ensures ScaledDown(n, q * p, value / p)
  {
    DivMod(value, p);
    QuotientNonNegative(value, p);
    ScaleRange(n, value, value / p, p, q, q * p);
  }

  lemma ScaleRange(n: nat, v: nat, x: nat, p: nat, q: nat, r: nat)
    requires v * q <= n < (v + 1) * q && x * p <= v < (x + 1) * p && r == q * p
    ensures x * r <= n < (x + 1) * r
  {
    MulMonotone(x * p, v, q);
    MulMonotone(v + 1, (x + 1) * p, q);
    assert x * (q * p) == (x * p) * q;
    assert (x + 1) * (q * p) == ((x + 1) * p) * q;
  }

  // Index of the lowest set bit of a nonzero word.
  method FindLSBSetNonZero(n: uint32) returns (rc: int)
    requires n != 0
    ensures 0 <= rc < 32 && IsLowestSetBit(n, rc)
  {
    hide Pow2, IsLowestSetBit;
    rc := 31;
    var v: uint32 := n;
    var i, shift := 4, 16;
    Pow2Values();
    Pow2Zero();
    Pow2Step(4);
    while i >= 0
      invariant -1 <= i <= 4
      invariant i >= 0 ==> shift == Pow2(i)
      invariant 0 <= rc <= 31 && Pow2(i + 1) <= rc + 1
      invariant v != 0 && v == n * Pow2(31 - rc) % 0x1_0000_0000
      invariant v * Pow2(Pow2(i + 1)) % 0x1_0000_0000 == 0
    {
      Pow2Step(i);
      if i > 0 {
        Pow2Step(i - 1);
      }
      var x: uint32 := v * Pow2(shift) % 0x1_0000_0000;
      ShiftTwice(v, shift);
      if x != 0 {
        ShiftMore(n, v, 31 - rc, shift);
        v := x;
        rc := rc - shift;
      }
      shift := shift / 2;
      i := i - 1;
    }
    TopBitOnly(v);
    LowestBitFromTop(n, rc);
  }

  lemma ShiftTwice(v: nat, shift: nat)
    requires v * Pow2(2 * shift) % 0x1_0000_0000 == 0
    ensures v * Pow2(shift) % 0x1_0000_0000 * Pow2(shift) % 0x1_0000_0000 == 0
  {
    hide Pow2;
    Pow2Add(shift, shift);
    var p := Pow2(shift);
    MulAssociative(v, p, p);
    ModTimes(v * p, p, 0x1_0000_0000);
  }

  lemma ShiftMore(n: nat, v: nat, a: nat, shift: nat)
    requires v == n * Pow2(a) % 0x1_0000_0000
    ensures v * Pow2(shift) % 0x1_0000_0000 == n * Pow2(a + shift) % 0x1_0000_0000
  {
    Pow2Add(a, shift);
    MulAssociative(n, Pow2(a), Pow2(shift));
    ModTimes(n * Pow2(a), Pow2(shift), 0x1_0000_0000);
  }

  lemma ModTimes(x: nat, y: nat, m: nat)
    requires m > 0
    ensures x % m * y % m == x * y % m
  {
    var q := x / m;
    assert x == m * q + x % m;
    assert x * y == (m * q) * y + x % m * y;
    MulAssociative(m, q, y);
    ModShift(x % m * y, q * y, m);
  }

  lemma TopBitOnly(v: uint32)
    requires v != 0 && v * 2 % 0x1_0000_0000 == 0
    ensures v == 0x8000_0000
  {}

  // If shifting n left by 31 - rc leaves just the top bit, rc is the lowest
  // set bit of n.
  lemma LowestBitFromTop(n: uint32, rc: nat)
    requires rc < 32 && n * Pow2(31 - rc) % 0x1_0000_0000 == 0x8000_0000
    ensures IsLowestSetBit(n, rc)
  {
    var p, r := Pow2(31 - rc), Pow2(rc);
    Pow2Values();
    Pow2Add(31 - rc, rc);
    TopBitFactors(n, p, r);
  }

  lemma TopBitFactors(n: nat, p: nat, r: nat)
    requires p > 0 && r > 0 && p * r == 0x8000_0000 && n * p % 0x1_0000_0000 == 0x8000_0000
    ensures n % r == 0 && n % (2 * r) == r
  {
    var q := n * p / 0x1_0000_0000;
    DivMod(n * p, 0x1_0000_0000);
    assert p * n == q * (2 * (p * r)) + p * r;
    assert q * (2 * (p * r)) == p * (q * (2 * r));
    CancelFactor(p, n, q * (2 * r) + r);
    ModUnique(n, 2 * r, q, r);
    ModUnique(n, r, 2 * q + 1, 0);
  }

  lemma CancelFactor(p: int, x: int, y: int)
    requires p > 0 && p * x == p * y
    ensures x == y
  {
    assert p * (x - y) == 0;
  }

  // The 64-bit scan, by way of the 32-bit one.
  method FindLSBSetNonZero64(n: uint64) returns (rc: int)
    requires n != 0
    ensures 0 <= rc < 64 && IsLowestSetBit(n, rc)
  {
    var bottombits: uint32 := n % 0x1_0000_0000;
    if bottombits == 0 {
      var r := FindLSBSetNonZero(n / 0x1_0000_0000);
      HighWord(n, r);
      rc := 32 + r;
    } else {
      rc := FindLSBSetNonZero(bottombits);
      LowWord(n, rc);
    }
  }

  lemma HighWord(n: uint64, r: nat)
    requires n % 0x1_0000_0000 == 0 && IsLowestSetBit(n / 0x1_0000_0000, r)
    ensures IsLowestSetBit(n, 32 + r)
  {
    var h := n / 0x1_0000_0000;
    Pow2Values();
    ScaleMod(h, 32, r);
    ScaleMod(h, 32, r + 1);
  }

  lemma ScaleMod(h: nat, a: nat, r: nat)
    ensures Pow2(a) * h % Pow2(a + r) == Pow2(a) * (h % Pow2(r))
  {
    hide Pow2;
    Pow2Add(a, r);
    DivMod(h, Pow2(r));
    ScaleRemainder(Pow2(a), Pow2(r), h, h / Pow2(r), h % Pow2(r));
  }

  lemma ScaleRemainder(p: nat, q: nat, h: nat, k: int, r: nat)
    requires p > 0 && q > 0 && h == k * q + r && r < q
    ensures p * q > 0 && p * h % (p * q) == p * r
  {
    assert p * h == (p * q) * k + p * r;
    MulMonotone(r + 1, q, p);
    assert p * r < p * q;
    ModUnique(p * h, p * q, k, p * r);
  }

  lemma LowWord(n: uint64, r: nat)
    requires r < 32 && IsLowestSetBit(n % 0x1_0000_0000, r)
    ensures IsLowestSetBit(n, r)
  {
    Pow2Values();
    Pow2Add(r, 32 - r);
    ModOfMultiple(n, Pow2(r), Pow2(32 - r));
    Pow2Add(r + 1, 31 - r);
    ModOfMultiple(n, Pow2(r + 1), Pow2(31 - r));
  }
}
