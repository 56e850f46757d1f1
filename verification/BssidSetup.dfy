/**
 The set-up of the BSSes of one radio: validation of the configured BSSIDs
 against the radio's own address, then one address for every BSS.
 The address of BSS 0 is the one the driver reported.
 */
module BssidSetup {
  import opened Bits
  import opened Bytes
  import opened Bssid

  // ----- validation -----

  /** Some BSS other than the first one is to get an address of our choice. */
  predicate HasAuto(conf: seq<Addr>) {
    exists j :: 1 <= j < |conf| && conf[j] == ZERO
  }

  /** The radio's address starts an aligned block of 2^b addresses that holds all configured ones. */
  predicate Fits(conf: seq<Addr>, own: Addr, b: nat) {
    && b <= 40 && |conf| <= Pow2(b)
    && Val(own) % Pow2(b) == 0
    && BlockHolds(conf, own, b)
  }

  predicate BlockHolds(conf: seq<Addr>, own: Addr, b: nat) {
    forall j :: 0 <= j < |conf| && conf[j] != ZERO ==> Val(own) <= Val(conf[j]) < Val(own) + Pow2(b)
  }

  method BuildMask(mask: array<byte>, bits: nat)
    requires mask.Length == 6 && bits <= 40
    modifies mask
    ensures IsMask(mask[..], bits)
  {
    for k := 0 to 6
      invariant forall x :: 0 <= x < k ==> mask[x] == 255
    {
      mask[k] := 255;
    }
    var j := bits / 8;
    var i := 5;
    while i > 5 - j
      invariant 5 - j <= i <= 5
      invariant forall x :: 0 <= x <= i ==> mask[x] == 255
      invariant forall x :: i < x < 6 ==> mask[x] == 0
    {
      mask[i] := 0;
      i := i - 1;
    }
    j := bits % 8;
    while j > 0
      invariant 0 <= j <= bits % 8
      invariant mask[i] as int == 256 - Pow2(bits % 8 - j)
      invariant forall x :: 0 <= x < i ==> mask[x] == 255
      invariant forall x :: i < x < 6 ==> mask[x] == 0
    {
      Pow2Mono(bits % 8 - j + 1, 7);
      Pow2Small();
      mask[i] := (2 * mask[i] as int % 256) as byte;
      j := j - 1;
    }
  }

  /** The OR over the first n configured addresses of their differences from ours, in byte k. */
  function Spread(conf: seq<Addr>, own: Addr, k: nat): (r: byte)
    requires k < 6
  {
    if conf == [] then 0
    else
      var n := |conf| - 1;
      var before := Spread(conf[..n], own, k);
      if conf[n] == ZERO then before
      else
        OrXorByte(before, conf[n][k], own[k]);
        Or(before, Xor(conf[n][k], own[k])) as byte
  }

  lemma OrXorByte(m: byte, a: byte, b: byte)
    ensures Or(m, Xor(a, b)) < 256
  {
    Pow2Small();
    XorBounds(a, b, 8);
    OrBounds(m, Xor(a, b), 8);
  }

  /** The difference mask covers each single difference, ... */
  lemma {:induction false} SpreadAbove(conf: seq<Addr>, own: Addr, k: nat, j: nat)
    requires k < 6 && j < |conf| && conf[j] != ZERO
    ensures Xor(conf[j][k], own[k]) <= Spread(conf, own, k) as nat
  {
    var n := |conf| - 1;
    Pow2Small();
    if conf[n] != ZERO {
      XorBounds(conf[n][k], own[k], 8);
      OrBounds(Spread(conf[..n], own, k), Xor(conf[n][k], own[k]), 8);
    }
    if j < n { SpreadAbove(conf[..n], own, k, j); }
  }

  /** ... and no bit that none of them has. */
  lemma {:induction false} SpreadBelow(conf: seq<Addr>, own: Addr, k: nat, w: nat)
    requires k < 6
    requires forall j :: 0 <= j < |conf| && conf[j] != ZERO ==> Xor(conf[j][k], own[k]) < Pow2(w)
    ensures Spread(conf, own, k) as nat < Pow2(w)
  {
    if conf != [] {
      var n := |conf| - 1;
      assert forall j :: 0 <= j < n ==> conf[..n][j] == conf[j];
      SpreadBelow(conf[..n], own, k, w);
      if conf[n] != ZERO {
        OrBounds(Spread(conf[..n], own, k), Xor(conf[n][k], own[k]), w);
      }
    }
  }

  /** What the validation computes byte by byte says that the addresses fit into one block. */
  lemma FitsBytewise(conf: seq<Addr>, own: Addr, spread: seq<byte>, b: nat)
    requires |conf| >= 1 && b <= 40
    requires |spread| == 6 && forall k :: 0 <= k < 6 ==> spread[k] == Spread(conf, own, k)
    ensures Fits(conf, own, b) <==>
            AlignedBytes(own, b) && BitLen(|conf| - 1) <= b && SpreadBits(spread, 0) <= b
  {
    AlignedBytesValue(own, b);
    CountBits(|conf| - 1, b);
    if AlignedBytes(own, b) {
      HoldsBytewise(conf, own, spread, b);
    }
  }

  lemma HoldsBytewise(conf: seq<Addr>, own: Addr, spread: seq<byte>, b: nat)
    requires |spread| == 6 && b <= 40 && AlignedBytes(own, b)
    requires forall k :: 0 <= k < 6 ==> spread[k] == Spread(conf, own, k)
    ensures BlockHolds(conf, own, b) <==> SpreadBits(spread, 0) <= b
  {
    if SpreadBits(spread, 0) <= b {
      SpreadHolds(conf, own, spread, b);
    }
    if BlockHolds(conf, own, b) {
      HoldsSpread(conf, own, spread, b);
    }
  }

  lemma SpreadHolds(conf: seq<Addr>, own: Addr, spread: seq<byte>, b: nat)
    requires |spread| == 6 && b <= 40 && AlignedBytes(own, b) && SpreadBits(spread, 0) <= b
    requires forall k :: 0 <= k < 6 ==> spread[k] == Spread(conf, own, k)
    ensures BlockHolds(conf, own, b)
  {
    forall j | 0 <= j < |conf| && conf[j] != ZERO
      ensures Val(own) <= Val(conf[j]) < Val(own) + Pow2(b)
    {
      forall k | 0 <= k < 6 ensures Xor(conf[j][k], own[k]) <= spread[k] as nat {
        SpreadAbove(conf, own, k, j);
      }
      InBlock(own, conf[j], spread, b);
    }
  }

  lemma HoldsSpread(conf: seq<Addr>, own: Addr, spread: seq<byte>, b: nat)
    requires |spread| == 6 && b <= 40 && AlignedBytes(own, b) && BlockHolds(conf, own, b)
    requires forall k :: 0 <= k < 6 ==> spread[k] == Spread(conf, own, k)
    ensures SpreadBits(spread, 0) <= b
  {
    var q := b / 8;
    forall j | 0 <= j < |conf| && conf[j] != ZERO
      ensures forall k :: 0 <= k < 5 - q ==> Xor(conf[j][k], own[k]) == 0
      ensures Xor(conf[j][5 - q], own[5 - q]) < Pow2(b % 8)
    {
      FromBlock(own, conf[j], b, q, b % 8);
      forall k | 0 <= k < 5 - q ensures Xor(conf[j][k], own[k]) == 0 { XorSelf(own[k]); }
    }
    forall k | 0 <= k < 5 - q ensures spread[k] == 0 { SpreadBelow(conf, own, k, 0); }
    SpreadBelow(conf, own, 5 - q, b % 8);
    SpreadBounded(spread, 0, b);
  }

  lemma CountBits(x: nat, b: nat)
    ensures BitLen(x) <= b <==> x < Pow2(b)
  {
    if x < Pow2(b) { BitLenOfByte(x, b); } else if BitLen(x) <= b { Pow2Mono(BitLen(x), b); }
  }

  /** A block that fits and starts aligned to more bits also works with fewer. */
  lemma FitsLess(conf: seq<Addr>, own: Addr, spread: seq<byte>, b: nat, bits: nat)
    requires |conf| >= 1 && Fits(conf, own, b)
    requires |spread| == 6 && forall k :: 0 <= k < 6 ==> spread[k] == Spread(conf, own, k)
    requires bits == Max(BitLen(|conf| - 1), SpreadBits(spread, 0))
    ensures bits <= b && Fits(conf, own, bits)
  {
    FitsBytewise(conf, own, spread, b);
    AlignedLess(Val(own), bits, b);
    AlignedBytesValue(own, bits);
    FitsBytewise(conf, own, spread, bits);
  }

  lemma AlignedLess(v: nat, a: nat, b: nat)
    requires a <= b && v % Pow2(b) == 0
    ensures v % Pow2(a) == 0
  {
    Pow2Add(a, b - a);
    SmallerFactor(v, Pow2(b), Pow2(a), Pow2(b - a));
  }

  lemma SmallerFactor(v: nat, n: int, p: int, q: int)
    requires p >= 1 && q >= 1 && n == p * q >= 1 && v % n == 0
    ensures v % p == 0
  {
    var k := v / n;
    assert v == k * n;
    assert k * (p * q) == (k * q) * p;
    RemainderUnique(v, p, k * q, 0);
  }

  function Max(a: nat, b: nat): nat { if a < b then b else a }

  /** Bits needed to number n BSSes. */
  method NumberBits(n: nat) returns (bits: nat)
    requires n >= 1
    ensures bits == BitLen(n - 1)
  {
    var i: nat := n - 1;
    ghost var all := BitLen(i);
    bits := 0;
    while i != 0
      invariant bits + BitLen(i) == all
    {
      i := i / 2;
      bits := bits + 1;
    }
  }

  method CollectSpread(conf: seq<Addr>, own: Addr, mask: array<byte>) returns (auto: nat)
    requires mask.Length == 6 && forall k :: 0 <= k < 6 ==> mask[k] == 0
    modifies mask
    ensures auto > 0 <==> HasAuto(conf)
    ensures forall k :: 0 <= k < 6 ==> mask[k] == Spread(conf, own, k)
  {
    auto := 0;
    for j := 0 to |conf|
      invariant auto > 0 <==> HasAuto(conf[..j])
      invariant forall k :: 0 <= k < 6 ==> mask[k] == Spread(conf[..j], own, k)
    {
      assert conf[..j + 1][..j] == conf[..j];
      if conf[j] == ZERO {
        if j > 0 {
          auto := auto + 1;
          assert conf[..j + 1][j] == ZERO;
        }
      } else {
        for i := 0 to 6
          invariant forall k :: 0 <= k < i ==> mask[k] == Spread(conf[..j + 1], own, k)
          invariant forall k :: i <= k < 6 ==> mask[k] == Spread(conf[..j], own, k)
        {
          OrXorByte(mask[i], conf[j][i], own[i]);
          mask[i] := Or(mask[i], Xor(conf[j][i], own[i])) as byte;
        }
      }
    }
    assert conf[..|conf|] == conf;
  }

  /** Bits needed for the configured addresses; shifts the mask away. */
  method AddressBits(mask: array<byte>) returns (j: nat)
    requires mask.Length == 6
    modifies mask
    ensures j == SpreadBits(old(mask[..]), 0)
  {
    ghost var spread := mask[..];
    var i := 0;
    while i < 6 && mask[i] == 0
      invariant 0 <= i <= 6
      invariant SpreadBits(spread, i) == SpreadBits(spread, 0)
    {
      i := i + 1;
    }
    j := 0;
    if i < 6 {
      j := (5 - i) * 8;
      while mask[i] != 0
        invariant j + BitLen(mask[i]) == SpreadBits(spread, 0)
        decreases mask[i]
      {
        mask[i] := mask[i] / 2;
        j := j + 1;
      }
    }
  }

  /** own AND mask == own, byte by byte. */
  method StartsBlock(own: Addr, mask: array<byte>) returns (ok: bool)
    requires mask.Length == 6
    ensures ok <==> forall k :: 0 <= k < 6 ==> And(own[k], mask[k]) == own[k]
  {
    for i := 0 to 6
      invariant forall k :: 0 <= k < i ==> And(own[k], mask[k]) == own[k]
    {
      if And(own[i], mask[i]) != own[i] {
        return false;
      }
    }
    return true;
  }

  lemma MaskAccepts(own: Addr, mask: seq<byte>, bits: nat, ok: bool)
    requires IsMask(mask, bits)
    requires ok <==> forall k :: 0 <= k < 6 ==> And(own[k], mask[k]) == own[k]
    ensures ok <==> AlignedBytes(own, bits)
  {
    MaskedBytes(own, mask, bits);
  }

  /** bits is the size of the smallest block that could fit, and fits if any does. */
  ghost predicate Decides(conf: seq<Addr>, own: Addr, bits: nat) {
    && ((exists b :: Fits(conf, own, b)) <==> bits <= 40 && AlignedBytes(own, bits))
    && (bits <= 40 && AlignedBytes(own, bits) ==> Fits(conf, own, bits))
    && forall b :: Fits(conf, own, b) ==> bits <= b
  }

  lemma SmallestBlock(conf: seq<Addr>, own: Addr, spread: seq<byte>, bits: nat)
    requires |conf| >= 1
    requires |spread| == 6 && forall k :: 0 <= k < 6 ==> spread[k] == Spread(conf, own, k)
    requires bits == Max(BitLen(|conf| - 1), SpreadBits(spread, 0))
    ensures Decides(conf, own, bits)
  {
    forall b | Fits(conf, own, b)
      ensures bits <= 40 && bits <= b && AlignedBytes(own, bits)
    {
      FitsLess(conf, own, spread, b, bits);
      AlignedBytesValue(own, bits);
    }
    if bits <= 40 {
      FitsBytewise(conf, own, spread, bits);
    }
  }

  /** The larger of the bits that number the BSSes and those that cover every configured address. */
  method RequiredBits(conf: seq<Addr>, own: Addr, mask: array<byte>) returns (bits: nat)
    requires |conf| >= 1 && mask.Length == 6
    requires forall k :: 0 <= k < 6 ==> mask[k] == Spread(conf, own, k)
    modifies mask
    ensures Decides(conf, own, bits)
  {
    ghost var spread := mask[..];
    bits := LargerBits(|conf|, mask, spread);
    SmallestBlock(conf, own, spread, bits);
  }

  method LargerBits(n: nat, mask: array<byte>, ghost spread: seq<byte>) returns (bits: nat)
    requires n >= 1 && mask.Length == 6 && mask[..] == spread
    modifies mask
    ensures bits == Max(BitLen(n - 1), SpreadBits(spread, 0))
  {
    bits := NumberBits(n);
    var j := AddressBits(mask);
    if bits < j {
      bits := j;
    }
  }

  /** Our address starts a block of 2^bits addresses, tested under the mask of the block. */
  method StartsAligned(own: Addr, mask: array<byte>, bits: nat) returns (ok: bool)
    requires mask.Length == 6 && bits <= 40
    modifies mask
    ensures ok <==> AlignedBytes(own, bits)
  {
    BuildMask(mask, bits);
    ok := StartsBlock(own, mask);
    MaskAccepts(own, mask[..], bits, ok);
  }

  /**
   Accepts exactly when no address is to be chosen, or some aligned block
   starting at our address is wide enough for all BSSes and holds every
   configured address; the mask found is that of the smallest such block.
   */
  method Validate(conf: seq<Addr>, own: Addr) returns (ok: bool, bits: nat)
    requires |conf| >= 1
    ensures ok <==> !HasAuto(conf) || exists b :: Fits(conf, own, b)
    ensures ok && HasAuto(conf) ==> Fits(conf, own, bits) && forall b :: Fits(conf, own, b) ==> bits <= b
  {
    var mask := new byte[6](_ => 0);
    var auto := CollectSpread(conf, own, mask);
    if auto == 0 {
      return true, 0;
    }
    bits := RequiredBits(conf, own, mask);
    if bits > 40 {
      return false, bits;
    }
    ok := StartsAligned(own, mask, bits);
  }
}
