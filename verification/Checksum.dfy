/**
 The checksum of an IPv4 header as the data test builds it: 16-bit words added
 in a 32-bit counter, carries folded back in (section 1 of RFC 1071).
 */
module Checksum {

  type u16 = x: int | 0 <= x < 0x1_0000

  const U32: nat := 0x1_0000_0000

  /** Add the carries above 16 bits back in until there are none. */
  function Fold(n: nat): nat
    decreases n
  {
    if n < 0x1_0000 then n else Fold(n % 0x1_0000 + n / 0x1_0000)
  }

  /** Folding keeps the value modulo 65535, and tells zero from 65535. */
  lemma {:induction false} FoldKeepsSum(n: nat)
    ensures Fold(n) <= 0xffff && Fold(n) % 0xffff == n % 0xffff && (Fold(n) == 0 <==> n == 0)
    decreases n
  {
    if n >= 0x1_0000 {
      FoldKeepsSum(n % 0x1_0000 + n / 0x1_0000);
      Congruent(n, n % 0x1_0000 + n / 0x1_0000, n / 0x1_0000);
    }
  }

  lemma Congruent(a: nat, b: nat, k: int)
    requires a == b + 0xffff * k
    ensures a % 0xffff == b % 0xffff
  {}

  /** The words added up in a 32-bit counter. */
  function Sum32(ws: seq<u16>): (s: nat)
    ensures s < U32
  {
    if ws == [] then 0 else (Sum32(ws[..|ws| - 1]) + ws[|ws| - 1]) % U32
  }

  function HdrChecksum(ws: seq<u16>): (r: u16) {
    FoldKeepsSum(Sum32(ws));
    0xffff - Fold(Sum32(ws))
  }

  method Ipv4HdrChecksum(ws: seq<u16>) returns (r: u16)
    ensures r == HdrChecksum(ws)
  {
    var sum: nat := 0;
    for i := 0 to |ws|
      invariant sum == Sum32(ws[..i])
    {
      assert ws[..i + 1][..i] == ws[..i];
      sum := (sum + ws[i]) % U32;
    }
    assert ws[..|ws|] == ws;
    while sum / 0x1_0000 != 0
      invariant Fold(sum) == Fold(Sum32(ws))
      decreases sum
    {
      sum := sum % 0x1_0000 + sum / 0x1_0000;
    }
    FoldKeepsSum(Sum32(ws));
    r := 0xffff - sum;
  }

  // ----- the sum without a width -----

  function Total(ws: seq<u16>): nat {
    if ws == [] then 0 else Total(ws[..|ws| - 1]) + ws[|ws| - 1]
  }

  lemma {:induction false} Sum32IsTotal(ws: seq<u16>)
    ensures Sum32(ws) == Total(ws) % U32
  {
    if ws != [] { Sum32IsTotal(ws[..|ws| - 1]); }
  }

  lemma {:induction false} TotalStore(ws: seq<u16>, i: nat, c: u16)
    requires i < |ws|
    ensures Total(ws[i := c]) == Total(ws) - ws[i] + c
  {
    var n := |ws| - 1;
    if i < n {
      TotalStore(ws[..n], i, c);
      assert ws[i := c][..n] == ws[..n][i := c];
    } else {
      assert ws[i := c][..n] == ws[..n];
    }
  }

  /** Adding the checksum never makes the counter wrap. */
  lemma NoWrap(s: nat)
    requires s < U32
    ensures Fold(s) <= 0xffff && s + (0xffff - Fold(s)) < U32
  {
    FoldKeepsSum(s);
    if s > U32 - 0x1_0000 {
      var t := s - 0xffff_0001;
      assert s / 0x1_0000 == 0xffff && s % 0x1_0000 == t + 1;
      assert Fold(s) == Fold(0x1_0000 + t);
      assert Fold(s) == Fold(t + 1);
    }
  }

  /**
   Store the checksum in a zeroed word, and a second computation returns 0,
   whatever the words and however many, even where the counter wraps.
   */
  lemma SelfVerifies(ws: seq<u16>, i: nat)
    requires i < |ws| && ws[i] == 0
    ensures HdrChecksum(ws[i := HdrChecksum(ws)]) == 0
  {
    var s, c := Sum32(ws), HdrChecksum(ws);
    Sum32IsTotal(ws);
    TotalStore(ws, i, c);
    Sum32IsTotal(ws[i := c]);
    NoWrap(s);
    Stored(Total(ws), s, c);
    FoldKeepsSum(s);
    FoldKeepsSum(s + c);
    CompleteSum(s, Fold(s), Fold(s + c));
  }

  lemma Stored(total: nat, s: nat, c: nat)
    requires s == total % U32 && s + c < U32
    ensures (total + c) % U32 == s + c
  {}

  lemma CompleteSum(s: nat, f: nat, g: nat)
    requires f <= 0xffff && f % 0xffff == s % 0xffff && (f == 0 <==> s == 0)
    requires g <= 0xffff && g % 0xffff == (s + (0xffff - f)) % 0xffff && (g == 0 <==> s + (0xffff - f) == 0)
    ensures g == 0xffff
  {}

  // ----- the standard's definition -----

  /** Ones' complement addition: the carry out of the top goes back in at the bottom. */
  function OnesAdd(a: u16, b: u16): u16 {
    if a + b < 0x1_0000 then a + b else a + b - 0xffff
  }

  function OnesSum(ws: seq<u16>): u16 {
    if ws == [] then 0 else OnesAdd(OnesSum(ws[..|ws| - 1]), ws[|ws| - 1])
  }

  lemma OnesAddMod(a: u16, b: u16, t: nat)
    requires a % 0xffff == t % 0xffff && (a == 0 <==> t == 0)
    ensures OnesAdd(a, b) % 0xffff == (t + b) % 0xffff && (OnesAdd(a, b) == 0 <==> t + b == 0)
  {}

  lemma {:induction false} OnesSumIsTotal(ws: seq<u16>)
    ensures OnesSum(ws) % 0xffff == Total(ws) % 0xffff && (OnesSum(ws) == 0 <==> Total(ws) == 0)
  {
    if ws != [] {
      var before, w := ws[..|ws| - 1], ws[|ws| - 1];
      OnesSumIsTotal(before);
      OnesAddMod(OnesSum(before), w, Total(before));
    }
  }

  /** The counter has wrapped around a multiple of 65535 times, and not to zero. */
  predicate WrapsHarmlessly(total: nat) {
    total / U32 % 0xffff == 0 && (total % U32 == 0 ==> total == 0)
  }

  /** The result is the complement of the ones' complement sum exactly when the counter did no harm by wrapping. */
  lemma OnesComplementExactly(ws: seq<u16>)
    ensures HdrChecksum(ws) == 0xffff - OnesSum(ws) <==> WrapsHarmlessly(Total(ws))
  {
    Sum32IsTotal(ws);
    FoldKeepsSum(Sum32(ws));
    OnesSumIsTotal(ws);
    Reduce(Total(ws), Sum32(ws), Fold(Sum32(ws)), OnesSum(ws));
  }

  lemma Reduce(total: nat, s: nat, f: nat, o: nat)
    requires s == total % U32
    requires f <= 0xffff && f % 0xffff == s % 0xffff && (f == 0 <==> s == 0)
    requires o <= 0xffff && o % 0xffff == total % 0xffff && (o == 0 <==> total == 0)
    ensures f == o <==> WrapsHarmlessly(total)
  {
    var w := total / U32;
    assert total == w * U32 + s;
    Congruent(total, s + w, 0x1_0001 * w);
  }

  lemma {:induction false} TotalBound(ws: seq<u16>)
    ensures Total(ws) <= 0xffff * |ws|
  {
    if ws != [] { TotalBound(ws[..|ws| - 1]); }
  }

  /** Up to 65537 words the counter cannot wrap. */
  lemma OnesComplementWithinBound(ws: seq<u16>)
    requires |ws| <= 65537
    ensures HdrChecksum(ws) == 0xffff - OnesSum(ws)
  {
    TotalBound(ws);
    OnesComplementExactly(ws);
  }

  /** n words of all ones. */
  function Ones(n: nat): seq<u16> {
    if n == 0 then [] else Ones(n - 1) + [0xffff]
  }

  lemma {:induction false} TotalOfOnes(n: nat)
    ensures |Ones(n)| == n && Total(Ones(n)) == 0xffff * n
  {
    if n > 0 {
      TotalOfOnes(n - 1);
      assert Ones(n)[..n - 1] == Ones(n - 1);
    }
  }

  const TOO_MANY: nat := 65538

  /** One word more than the counter has room for, and the result is off. */
  lemma OneWordTooMany()
    ensures |Ones(TOO_MANY)| == 65538 && HdrChecksum(Ones(TOO_MANY)) != 0xffff - OnesSum(Ones(TOO_MANY))
  {
    TotalOfOnes(TOO_MANY);
    OnesComplementExactly(Ones(TOO_MANY));
  }
}
