/**
 Machine words and byte strings as numbers: powers of two, the bitwise
 operators, quotients and remainders, and big-endian values of byte strings.
 */
module Bits {
  import opened Bytes

  function Pow2(k: nat): (p: nat)
    ensures p >= 1
  {
    if k == 0 then 1 else 2 * Pow2(k - 1)
  }

  lemma {:induction false} Pow2Add(a: nat, b: nat)
    ensures Pow2(a + b) == Pow2(a) * Pow2(b)
  {
    if b > 0 {
      Pow2Add(a, b - 1);
      assert Pow2(a) * (2 * Pow2(b - 1)) == 2 * (Pow2(a) * Pow2(b - 1));
    }
  }

  lemma {:induction false} Pow2Mono(a: nat, b: nat)
    requires a <= b
    ensures Pow2(a) <= Pow2(b)
  {
    if a < b { Pow2Mono(a, b - 1); }
  }

  // ----- bitwise operations on non-negative ints -----

  function Xor(a: nat, b: nat): nat
    decreases a + b
  {
    if a == 0 && b == 0 then 0 else 2 * Xor(a / 2, b / 2) + if a % 2 != b % 2 then 1 else 0
  }

  function Or(a: nat, b: nat): nat
    decreases a + b
  {
    if a == 0 && b == 0 then 0 else 2 * Or(a / 2, b / 2) + if a % 2 == 1 || b % 2 == 1 then 1 else 0
  }

  function And(a: nat, b: nat): nat
    decreases a + b
  {
    if a == 0 || b == 0 then 0 else 2 * And(a / 2, b / 2) + if a % 2 == 1 && b % 2 == 1 then 1 else 0
  }

  lemma {:induction false} OrBounds(a: nat, b: nat, w: nat)
    requires a < Pow2(w) && b < Pow2(w)
    ensures a <= Or(a, b) && b <= Or(a, b) < Pow2(w)
    decreases w
  {
    if a != 0 || b != 0 { OrBounds(a / 2, b / 2, w - 1); }
  }

  lemma {:induction false} XorBounds(a: nat, b: nat, w: nat)
    requires a < Pow2(w) && b < Pow2(w)
    ensures Xor(a, b) < Pow2(w)
    ensures Xor(a, b) == 0 <==> a == b
    decreases w
  {
    if a != 0 || b != 0 { XorBounds(a / 2, b / 2, w - 1); }
  }

  /** Two numbers that differ only in their low l bits lie in the same aligned block. */
  lemma {:induction false} XorSmall(a: nat, b: nat, l: nat)
    requires Xor(a, b) < Pow2(l) && a % Pow2(l) == 0
    ensures a <= b < a + Pow2(l)
    decreases l
  {
    if l == 0 {
      XorZero(a, b);
    } else if a != 0 || b != 0 {
      HalfAligned(a, l);
      XorSmall(a / 2, b / 2, l - 1);
    }
  }

  lemma {:induction false} XorZero(a: nat, b: nat)
    requires Xor(a, b) == 0
    ensures a == b
    decreases a + b
  {
    if a != 0 || b != 0 { XorZero(a / 2, b / 2); }
  }

  lemma HalfAligned(a: nat, l: nat)
    requires l >= 1 && a % Pow2(l) == 0
    ensures a % 2 == 0 && (a / 2) % Pow2(l - 1) == 0
  {
    var k := a / Pow2(l);
    assert a == Pow2(l) * k == 2 * (Pow2(l - 1) * k);
    MultipleAligned(Pow2(l - 1), k);
  }

  lemma MultipleAligned(p: nat, k: nat)
    requires p >= 1
    ensures (p * k) % p == 0
  {
    RemainderUnique(p * k, p, k, 0);
  }

  lemma RemainderUnique(w: nat, n: nat, q: int, r: nat)
    requires r < n && w == q * n + r
    ensures w % n == r && w / n == q
  {
    QuotientUnique(n, q, r, w / n, w % n);
  }

  lemma QuotientUnique(n: nat, q: int, r: nat, q': int, r': nat)
    requires r < n && r' < n && q * n + r == q' * n + r'
    ensures q == q' && r == r'
  {
    if q < q' {
      AtLeast(q' - q, n);
    } else if q' < q {
      AtLeast(q - q', n);
    }
  }

  lemma AtLeast(d: nat, n: nat)
    requires d >= 1
    ensures d * n >= n
  {
    assert d * n == (d - 1) * n + n;
  }

  /** A number unchanged by a mask aligned to 2^r is itself aligned to 2^r. */
  lemma {:induction false} MaskedAligned(a: nat, m: nat, r: nat)
    requires And(a, m) == a && m % Pow2(r) == 0
    ensures a % Pow2(r) == 0
    decreases r
  {
    if r > 0 && a != 0 && m != 0 {
      HalfAligned(m, r);
      MaskedAligned(a / 2, m / 2, r - 1);
      DoubleAligned(a / 2, r);
    }
  }

  lemma DoubleAligned(h: nat, r: nat)
    requires r >= 1 && h % Pow2(r - 1) == 0
    ensures (2 * h) % Pow2(r) == 0
  {
    var k := h / Pow2(r - 1);
    assert 2 * h == k * Pow2(r);
    RemainderUnique(2 * h, Pow2(r), k, 0);
  }

  lemma AndDouble(a: nat, m: nat, x: nat, y: nat)
    requires x < 2 && y < 2
    ensures And(2 * a + x, 2 * m + y) == 2 * And(a, m) + if x == 1 && y == 1 then 1 else 0
  {
    var b, n := 2 * a + x, 2 * m + y;
    assert b / 2 == a && b % 2 == x && n / 2 == m && n % 2 == y;
  }

  /** The mask 2^w - 2^r leaves every number aligned to 2^r alone. */
  lemma {:induction false} AlignedMasked(a: nat, w: nat, r: nat)
    requires r <= w && a < Pow2(w) && a % Pow2(r) == 0
    ensures Pow2(r) <= Pow2(w) && And(a, Pow2(w) - Pow2(r)) == a
    decreases w
  {
    Pow2Mono(r, w);
    if w > 0 {
      if r == 0 {
        RemainderUnique(a / 2, 1, a / 2, 0);
        AlignedMasked(a / 2, w - 1, 0);
        MaskedStep(a, Pow2(w - 1) - 1, 1);
      } else {
        HalfAligned(a, r);
        AlignedMasked(a / 2, w - 1, r - 1);
        MaskedStep(a, Pow2(w - 1) - Pow2(r - 1), 0);
      }
    }
  }

  lemma MaskedStep(a: nat, m: nat, y: nat)
    requires y < 2 && And(a / 2, m) == a / 2 && a % 2 <= y
    ensures And(a, 2 * m + y) == a
  {
    AndDouble(a / 2, m, a % 2, y);
  }

  // ----- addresses as numbers -----

  function Val(s: seq<byte>): nat {
    if s == [] then 0 else Val(s[..|s| - 1]) * 256 + s[|s| - 1]
  }

  lemma {:induction false} ValBound(s: seq<byte>)
    ensures Val(s) < Pow2(8 * |s|)
  {
    if s != [] {
      ValBound(s[..|s| - 1]);
      Pow2Add(8 * (|s| - 1), 8);
      assert Pow2(8) == 256 by { assert Pow2(4) == 16; Pow2Add(4, 4); }
    }
  }

  lemma {:induction false} ValSplit(s: seq<byte>, i: nat)
    requires i <= |s|
    ensures Val(s) == Val(s[..i]) * Pow2(8 * (|s| - i)) + Val(s[i..])
    decreases |s|
  {
    if i == |s| {
      assert s[..i] == s && s[i..] == [];
    } else {
      var n := |s| - 1;
      ValSplit(s[..n], i);
      assert s[..n][..i] == s[..i] && s[..n][i..] == s[i..n];
      assert s[i..][..|s| - i - 1] == s[i..n];
      Pow2Byte(n - i);
      Shifted(Val(s[..i]), Pow2(8 * (n - i)), Val(s[i..n]));
    }
  }

  lemma Pow2Byte(k: nat)
    ensures Pow2(8 * (k + 1)) == Pow2(8 * k) * 256
  {
    Pow2Add(8 * k, 8);
    Pow2Small();
  }

  lemma Shifted(p: int, q: int, v: int)
    ensures (p * q + v) * 256 == p * (q * 256) + v * 256
  {}

  /** inc_byte_array */
  function Inc(s: seq<byte>): (r: seq<byte>)
    ensures |r| == |s|
  {
    if s == [] then [] else
      var last := s[|s| - 1];
      if last == 255 then Inc(s[..|s| - 1]) + [0] else s[..|s| - 1] + [last + 1]
  }

  /** Counting up, with a wrap to zero only from the largest value. */
  lemma {:induction false} IncCounts(s: seq<byte>)
    ensures Val(Inc(s)) == if Val(s) + 1 == Pow2(8 * |s|) then 0 else Val(s) + 1
  {
    if s != [] {
      var init := s[..|s| - 1];
      IncCounts(init);
      ValBound(init);
      Pow2Add(8 * (|s| - 1), 8);
      assert Pow2(8) == 256 by { assert Pow2(4) == 16; Pow2Add(4, 4); }
      assert Inc(s)[..|s| - 1] == if s[|s| - 1] == 255 then Inc(init) else init;
    }
  }

  lemma {:induction false} ValInjective(s: seq<byte>, t: seq<byte>)
    requires |s| == |t| && Val(s) == Val(t)
    ensures s == t
  {
    if s != [] {
      var n := |s| - 1;
      assert s[n] == t[n] && Val(s[..n]) == Val(t[..n]);
      ValInjective(s[..n], t[..n]);
      assert s == s[..n] + [s[n]] && t == t[..n] + [t[n]];
    }
  }

  lemma Pow2Small()
    ensures Pow2(1) == 2 && Pow2(2) == 4 && Pow2(3) == 8 && Pow2(4) == 16 && Pow2(5) == 32
    ensures Pow2(6) == 64 && Pow2(7) == 128 && Pow2(8) == 256
  {
    assert Pow2(0) == 1;
    assert Pow2(4) == 16;
    assert Pow2(6) == 64;
  }

  lemma {:induction false} XorCommutes(a: nat, b: nat)
    ensures Xor(a, b) == Xor(b, a)
    decreases a + b
  {
    if a != 0 || b != 0 { XorCommutes(a / 2, b / 2); }
  }

  lemma {:induction false} XorWithin(a: nat, b: nat, l: nat)
    requires a % Pow2(l) == 0 && a <= b < a + Pow2(l)
    ensures Xor(b, a) < Pow2(l)
    decreases l
  {
    if l == 0 {
      XorSelf(a);
    } else if a != 0 || b != 0 {
      HalfAligned(a, l);
      XorWithin(a / 2, b / 2, l - 1);
    }
  }

  lemma {:induction false} XorSelf(a: nat)
    ensures Xor(a, a) == 0
  {
    if a != 0 { XorSelf(a / 2); }
  }

  lemma ProductMono(a: int, b: int, k: int)
    requires a <= b && k >= 0
    ensures a * k <= b * k
  {
    assert b * k - a * k == (b - a) * k;
  }

  lemma Cancel(a: int, b: int, k: int)
    requires a * k < b * k && k >= 0
    ensures a < b
  {
    if a >= b { ProductMono(b, a, k); }
  }

  lemma {:induction false} ValOfOnes(s: seq<byte>)
    requires forall k :: 0 <= k < |s| ==> s[k] == 255
    ensures Val(s) == Pow2(8 * |s|) - 1
  {
    if s != [] {
      ValOfOnes(s[..|s| - 1]);
      Pow2Add(8 * (|s| - 1), 8);
      Pow2Small();
    }
  }

  lemma {:induction false} ValOfZeros(s: seq<byte>)
    ensures Val(s) == 0 <==> forall k :: 0 <= k < |s| ==> s[k] == 0
  {
    if s != [] { ValOfZeros(s[..|s| - 1]); }
  }

  /** Number of 48-bit addresses. */
  const ADDRESSES: nat := 0x1_0000_0000_0000

  lemma AddressSpace()
    ensures Pow2(48) == ADDRESSES
  {
    Pow2Small();
    Pow2Add(8, 8);
    Pow2Add(16, 16);
    Pow2Add(32, 16);
  }

  lemma SplitPower(n: nat, b: nat)
    requires b <= n
    ensures Pow2(b) * Pow2(n - b) == Pow2(n)
  {
    Pow2Add(b, n - b);
  }

  lemma {:induction false} AndLowBits(x: nat, k: nat, p: nat)
    requires p == Pow2(k)
    ensures And(x, p - 1) == x % p
    decreases k
  {
    if k == 0 {
      RemainderUnique(x, 1, x, 0);
    } else {
      var h := Pow2(k - 1);
      AndLowBits(x / 2, k - 1, h);
      LowBitsStep(x, h);
      HalfMod(x, h);
    }
  }

  lemma LowBitsStep(x: nat, p: nat)
    requires p >= 1
    ensures And(x, 2 * p - 1) == 2 * And(x / 2, p - 1) + x % 2
  {
    AndDouble(x / 2, p - 1, x % 2, 1);
  }

  lemma HalfMod(x: nat, p: nat)
    requires p >= 1
    ensures x % (2 * p) == 2 * ((x / 2) % p) + x % 2
  {
    var q, r := (x / 2) / p, (x / 2) % p;
    assert x / 2 == q * p + r;
    assert q * (2 * p) == 2 * (q * p);
    RemainderUnique(x, 2 * p, q, 2 * r + x % 2);
  }

  lemma {:induction false} OrShifted(a: nat, b: nat, k: nat)
    requires b < Pow2(k)
    ensures Or(a * Pow2(k), b) == a * Pow2(k) + b
    decreases k
  {
    if k == 0 {
      OrZero(a);
    } else {
      var h := a * Pow2(k - 1);
      assert a * Pow2(k) == 2 * h;
      OrShifted(a, b / 2, k - 1);
    }
  }

  lemma {:induction false} OrZero(a: nat)
    ensures Or(a, 0) == a
  {
    if a > 0 { OrZero(a / 2); }
  }

  lemma ShiftMod(y: int, d: int, p: nat)
    requires p >= 1 && y >= 0 && y + d * p >= 0
    ensures (y + d * p) % p == y % p
  {
    assert y + d * p == (y / p + d) * p + y % p by {
      assert y == (y / p) * p + y % p;
      assert (y / p + d) * p == (y / p) * p + d * p;
    }
    RemainderUnique(y + d * p, p, y / p + d, y % p);
  }

  lemma StepMod(a: nat, n: nat, x: nat, p: nat)
    requires p >= 1 && x % p == (a + n) % p
    ensures (x + 1) % p == (a + (n + 1)) % p
  {
    var q, q' := x / p, (a + n) / p;
    assert x - (a + n) == (q - q') * p by {
      assert x == q * p + x % p && a + n == q' * p + (a + n) % p;
      assert q * p - q' * p == (q - q') * p;
    }
    ShiftMod(a + n + 1, q - q', p);
  }

  lemma SmallMod(x: nat, p: nat)
    requires x < p
    ensures (x + 0) % p == x
  {
    RemainderUnique(x, p, 0, x);
  }

  lemma ModAgain(x: nat, p: nat)
    requires p >= 1
    ensures (x % p) % p == x % p
  {
    RemainderUnique(x % p, p, 0, x % p);
  }
}
