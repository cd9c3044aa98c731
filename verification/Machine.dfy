// The machine the C++ code runs on: bytes, fixed-width words, little-endian
// loads and the word-level exclusive or.  Words are integers; every shift,
// mask and truncation of the source is written out as multiplication,
// division or remainder by a power of two.

module Machine {
  type byte = b: int | 0 <= b < 0x100
  type uint16 = w: int | 0 <= w < 0x1_0000
  type uint32 = w: int | 0 <= w < 0x1_0000_0000
  type uint64 = w: int | 0 <= w < 0x1_0000_0000_0000_0000

  datatype Option<+T> = None | Some(value: T)

  function Min(a: int, b: int): int {
    if a <= b then a else b
  }

  function Pow2(n: nat): (p: nat)
    ensures p > 0
  {
    if n == 0 then 1 else 2 * Pow2(n - 1)
  }

  lemma {:induction false} Pow2Add(a: nat, b: nat)
    ensures Pow2(a + b) == Pow2(a) * Pow2(b)
  {
    if a > 0 {
      Pow2Add(a - 1, b);
      assert Pow2(a + b) == 2 * Pow2(a - 1 + b);
    }
  }

  lemma Pow2Zero()
    ensures Pow2(0) == 1
  {}

  lemma Pow2Step(n: nat)
    ensures Pow2(n + 1) == 2 * Pow2(n)
  {}

  lemma Pow2Monotone(a: nat, b: nat)
    requires a <= b
    ensures Pow2(a) <= Pow2(b)
  {
    Pow2Add(a, b - a);
  }

  lemma Pow2Values()
    ensures Pow2(1) == 2 && Pow2(2) == 4 && Pow2(4) == 16 && Pow2(8) == 0x100 && Pow2(16) == 0x1_0000
    ensures Pow2(31) == 0x8000_0000 && Pow2(32) == 0x1_0000_0000 && Pow2(64) == 0x1_0000_0000_0000_0000
  {
    assert Pow2(1) == 2 * Pow2(0);
    Pow2Add(1, 1);
    Pow2Add(2, 2);
    Pow2Add(4, 4);
    Pow2Add(8, 8);
    Pow2Add(16, 16);
    Pow2Add(32, 32);
    assert Pow2(32) == 2 * Pow2(31);
  }

  lemma MulAssociative(a: int, b: int, c: int)
    ensures (a * b) * c == a * (b * c)
  {}

  lemma MulMonotone(a: int, b: int, c: int)
    requires a <= b && 0 <= c
    ensures a * c <= b * c
  {}

  lemma MulStrict(a: int, b: int, c: int)
    requires a * c < b * c && 0 <= c
    ensures a < b
  {}

  lemma SmallMod(x: nat, m: nat)
    requires x < m
    ensures x % m == x
  {}

  lemma QuotientNonNegative(x: nat, a: nat)
    requires a > 0
    ensures x / a >= 0
  {}

  lemma DivMod(x: int, a: int)
    requires a > 0
    ensures x == x / a * a + x % a && x / a * a <= x < (x / a + 1) * a
  {}

  // x mod (a * b) determines x mod a.
  lemma ModOfMultiple(x: nat, a: nat, b: nat)
    requires a > 0 && b > 0
    ensures a * b > 0 && (x % (a * b)) % a == x % a
  {
    var q, r := x / (a * b), x % (a * b);
    assert a * b > 0;
    assert x == (a * b) * q + r;
    assert x == a * (b * q) + r;
    ModShift(r, b * q, a);
  }

  lemma ModShift(r: int, k: int, a: int)
    requires a > 0
    ensures (a * k + r) % a == r % a
  {
    var q := r / a;
    assert r == a * q + r % a;
    assert a * k + r == a * (k + q) + r % a;
    ModUnique(a * k + r, a, k + q, r % a);
  }

  lemma ModUnique(x: int, a: int, q: int, r: int)
    requires a > 0 && 0 <= r < a && x == a * q + r
    ensures x / a == q && x % a == r
  {
    var d := x / a - q;
    assert a * d == r - x % a;
    assert d >= 1 ==> a * d >= a;
    assert d <= -1 ==> a * d <= -a;
  }

  // ------------------------------------------------------------------
  // Little-endian loads
  // ------------------------------------------------------------------

  // The n-byte little-endian word at position i.  UNALIGNED_LOAD32 is n == 4
  // and UNALIGNED_LOAD64 is n == 8; masking with wordmask[k] leaves n == k.
  function Load(s: seq<byte>, i: nat, n: nat): (w: nat)
    requires i + n <= |s|
    decreases n
  {
    if n == 0 then 0 else s[i] + 0x100 * Load(s, i + 1, n - 1)
  }

  lemma {:induction false} LoadBound(s: seq<byte>, i: nat, n: nat)
    requires i + n <= |s|
    ensures Load(s, i, n) < Pow2(8 * n)
    decreases n
  {
    if n > 0 {
      LoadBound(s, i + 1, n - 1);
      Pow2Values();
      Pow2Add(8, 8 * (n - 1));
      assert 8 + 8 * (n - 1) == 8 * n;
    }
  }

  // Two words are equal exactly when their bytes are.
  lemma {:induction false} LoadEqual(s: seq<byte>, i: nat, t: seq<byte>, j: nat, n: nat)
    requires i + n <= |s| && j + n <= |t|
    ensures Load(s, i, n) == Load(t, j, n) <==> s[i..i + n] == t[j..j + n]
    decreases n
  {
    if n > 0 {
      LoadEqual(s, i + 1, t, j + 1, n - 1);
      assert s[i..i + n] == [s[i]] + s[i + 1..i + n];
      assert t[j..j + n] == [t[j]] + t[j + 1..j + n];
      var x, y := Load(s, i + 1, n - 1), Load(t, j + 1, n - 1);
      assert s[i] + 0x100 * x == t[j] + 0x100 * y <==> s[i] == t[j] && x == y;
      if s[i..i + n] == t[j..j + n] {
        assert s[i] == s[i..i + n][0] == t[j];
        assert s[i + 1..i + n] == s[i..i + n][1..] == t[j + 1..j + n];
      }
    }
  }

  // A word splits into its low k bytes and the rest.
  lemma {:induction false} LoadSplit(s: seq<byte>, i: nat, n: nat, k: nat)
    requires i + n <= |s| && k <= n
    ensures Load(s, i, n) == Load(s, i, k) + Pow2(8 * k) * Load(s, i + k, n - k)
    decreases n
  {
    if k > 0 {
      var m, hi := Pow2(8 * (k - 1)), Load(s, i + k, n - k);
      LoadSplit(s, i + 1, n - 1, k - 1);
      assert Pow2(8 * k) == 0x100 * m by {
        Pow2Values();
        Pow2Add(8, 8 * (k - 1));
        assert 8 + 8 * (k - 1) == 8 * k;
      }
      MulAssociative(0x100, m, hi);
    }
  }

  // Masking a word down to its low k bytes loads just those bytes, and
  // shifting it right by k bytes drops them.
  lemma LoadMaskShift(s: seq<byte>, i: nat, n: nat, k: nat)
    requires i + n <= |s| && k <= n
    ensures Load(s, i, n) % Pow2(8 * k) == Load(s, i, k)
    ensures Load(s, i, n) / Pow2(8 * k) == Load(s, i + k, n - k)
  {
    LoadSplit(s, i, n, k);
    LoadBound(s, i, k);
    ModUnique(Load(s, i, n), Pow2(8 * k), Load(s, i + k, n - k), Load(s, i, k));
  }

  // A load only looks at the bytes it covers.
  lemma {:induction false} LoadLocal(s: seq<byte>, i: nat, t: seq<byte>, j: nat, n: nat)
    requires i + n <= |s| && j + n <= |t|
    requires s[i..i + n] == t[j..j + n]
    ensures Load(s, i, n) == Load(t, j, n)
  {
    LoadEqual(s, i, t, j, n);
  }

  // ------------------------------------------------------------------
  // Exclusive or
  // ------------------------------------------------------------------

  function Xor(x: nat, y: nat): nat
  {
    if x == 0 && y == 0 then 0
    else (if x % 2 == y % 2 then 0 else 1) + 2 * Xor(x / 2, y / 2)
  }

  lemma {:induction false} XorBound(x: nat, y: nat, n: nat)
    requires x < Pow2(n) && y < Pow2(n)
    ensures Xor(x, y) < Pow2(n)
    decreases n
  {
    if n > 0 && (x != 0 || y != 0) {
      XorBound(x / 2, y / 2, n - 1);
    }
  }

  // The low k bits of an exclusive or are clear exactly when the operands
  // agree on their low k bits.
  lemma {:induction false} XorLowBits(x: nat, y: nat, k: nat)
    ensures Xor(x, y) % Pow2(k) == 0 <==> x % Pow2(k) == y % Pow2(k)
    decreases k
  {
    if k > 0 && (x != 0 || y != 0) {
      XorLowBits(x / 2, y / 2, k - 1);
      HalveMod(x, k);
      HalveMod(y, k);
      HalveMod(Xor(x, y), k);
      assert Xor(x, y) / 2 == Xor(x / 2, y / 2);
      assert Xor(x, y) % 2 == 0 <==> x % 2 == y % 2;
    }
  }

  lemma HalveMod(x: nat, k: nat)
    requires k > 0
    ensures x % Pow2(k) == x % 2 + 2 * (x / 2 % Pow2(k - 1))
  {
    var m := Pow2(k - 1);
    assert x / 2 == m * (x / 2 / m) + x / 2 % m;
    ModUnique(x, 2 * m, x / 2 / m, x % 2 + 2 * (x / 2 % m));
  }
}
