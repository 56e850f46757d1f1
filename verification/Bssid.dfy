/**
 BSSID set-up: the mask wide enough for all the BSSes of a radio, the check
 that the radio's address starts a block, and the allocation of the next free
 address to every BSS that has none configured.
 */
module Bssid {
  import opened Bits
  import opened Bytes

  const ZERO: Addr := [0, 0, 0, 0, 0, 0]

  // ----- next free address, as numbers -----

  function Above(taken: set<nat>, v: nat): set<nat> {
    set x | x in taken && x > v
  }

  /** The first number after v that is not taken. */
  function NextFree(taken: set<nat>, v: nat): nat
    decreases |Above(taken, v)|
  {
    if v + 1 !in taken then v + 1
    else
      assert Above(taken, v) == Above(taken, v + 1) + {v + 1};
      NextFree(taken, v + 1)
  }

  lemma {:induction false} NextFreeIsLeast(taken: set<nat>, v: nat)
    ensures var r := NextFree(taken, v); v < r && r !in taken && forall x :: v < x < r ==> x in taken
    decreases |Above(taken, v)|
  {
    if v + 1 in taken {
      assert Above(taken, v) == Above(taken, v + 1) + {v + 1};
      NextFreeIsLeast(taken, v + 1);
    }
  }

  /** How many numbers in (base, x] are not taken. */
  function Free(taken: set<nat>, base: nat, x: nat): nat {
    if x <= base then 0 else Free(taken, base, x - 1) + if x in taken then 0 else 1
  }

  lemma {:induction false} FreeMono(taken: set<nat>, base: nat, x: nat, y: nat)
    requires x <= y
    ensures Free(taken, base, x) <= Free(taken, base, y)
  {
    if x < y { FreeMono(taken, base, x, y - 1); }
  }

  lemma {:induction false} FreeAcrossTaken(taken: set<nat>, base: nat, v: nat, x: nat)
    requires base <= v <= x && forall y :: v < y <= x ==> y in taken
    ensures Free(taken, base, x) == Free(taken, base, v)
  {
    if v < x { FreeAcrossTaken(taken, base, v, x - 1); }
  }

  /** The m-th address handed out from base. */
  function Alloc(taken: set<nat>, base: nat, m: nat): nat {
    if m == 0 then base else NextFree(taken, Alloc(taken, base, m - 1))
  }

  /** The m-th address handed out is the m-th free one. */
  lemma {:induction false} AllocIsMthFree(taken: set<nat>, base: nat, m: nat)
    ensures Alloc(taken, base, m) >= base && Free(taken, base, Alloc(taken, base, m)) == m
    ensures m > 0 ==> Alloc(taken, base, m) !in taken && Alloc(taken, base, m) > Alloc(taken, base, m - 1)
  {
    if m > 0 {
      AllocIsMthFree(taken, base, m - 1);
      var v, r := Alloc(taken, base, m - 1), Alloc(taken, base, m);
      NextFreeIsLeast(taken, v);
      FreeAcrossTaken(taken, base, v, r - 1);
    }
  }

  lemma {:induction false} AllocIncreasing(taken: set<nat>, base: nat, j: nat, k: nat)
    requires j < k
    ensures Alloc(taken, base, j) < Alloc(taken, base, k)
  {
    AllocIsMthFree(taken, base, k);
    if j < k - 1 { AllocIncreasing(taken, base, j, k - 1); }
  }

  /** Taken numbers strictly inside the block of the given size that starts at base. */
  function TakenInside(taken: set<nat>, base: nat, size: nat): set<nat> {
    set x | x in taken && base < x < base + size
  }

  lemma {:induction false} FreePlusTaken(taken: set<nat>, base: nat, size: nat)
    requires size >= 1
    ensures Free(taken, base, base + size - 1) + |TakenInside(taken, base, size)| == size - 1
  {
    if size == 1 {
      assert TakenInside(taken, base, 1) == {};
    } else {
      FreePlusTaken(taken, base, size - 1);
      var x := base + size - 1;
      if x in taken {
        assert TakenInside(taken, base, size) == TakenInside(taken, base, size - 1) + {x};
      } else {
        assert TakenInside(taken, base, size) == TakenInside(taken, base, size - 1);
      }
    }
  }

  /**
   m addresses fit into the block exactly when m and the addresses already
   configured in it leave the starting address to spare.
   */
  lemma AllocStaysInBlock(taken: set<nat>, base: nat, size: nat, m: nat)
    requires size >= 1
    ensures Alloc(taken, base, m) < base + size <==> m + |TakenInside(taken, base, size)| <= size - 1
  {
    FreePlusTaken(taken, base, size);
    AllocIsMthFree(taken, base, m);
    var a, last := Alloc(taken, base, m), base + size - 1;
    if a <= last {
      FreeMono(taken, base, a, last);
    } else if m > 0 {
      FreeMono(taken, base, last, a - 1);
    }
  }

  // ----- the mask -----

  function BitLen(x: nat): (l: nat)
    ensures x < Pow2(l)
  {
    if x == 0 then 0 else 1 + BitLen(x / 2)
  }

  lemma {:induction false} BitLenOfByte(x: nat, w: nat)
    requires x < Pow2(w)
    ensures BitLen(x) <= w
  {
    if x > 0 { BitLenOfByte(x / 2, w - 1); }
  }

  /** Bytes above number 5 - q are all ones, those below all zeros, and that one is 256 - 2^r. */
  predicate IsMaskAt(mask: seq<byte>, q: nat, r: nat) {
    && |mask| == 6 && q <= 5 && mask[5 - q] as int == 256 - Pow2(r)
    && (forall k :: 0 <= k < 5 - q ==> mask[k] == 255)
    && (forall k :: 5 - q < k < 6 ==> mask[k] == 0)
  }

  predicate IsMask(mask: seq<byte>, bits: nat) {
    bits <= 40 && IsMaskAt(mask, bits / 8, bits % 8)
  }

  /** m is the product; named to keep it out of other proofs' way. */
  predicate Times(m: int, a: int, b: int) { m == a * b }

  /** v is made of p above, the byte b, and tail below, with low the weight of b. */
  predicate Around(v: int, p: int, b: int, low: int, tail: int) {
    v == (p * 256 + b) * low + tail && 0 <= tail < low && 0 <= p && 0 <= b
  }

  /** A six-byte value around its byte number 5 - q. */
  lemma ValAround(s: seq<byte>, q: nat)
    requires |s| == 6 && q <= 5
    ensures Around(Val(s), Val(s[..5 - q]), s[5 - q], Pow2(8 * q), Val(s[6 - q..]))
  {
    ValSplit(s, 6 - q);
    ValBound(s[6 - q..]);
    assert s[..6 - q][..5 - q] == s[..5 - q];
  }

  lemma TailZero(s: seq<byte>, q: nat)
    requires |s| == 6 && q <= 5
    ensures Val(s[6 - q..]) == 0 <==> forall k :: 5 - q < k < 6 ==> s[k] == 0
  {
    ValOfZeros(s[6 - q..]);
    assert forall k :: 5 - q < k < 6 ==> s[6 - q..][k - (6 - q)] == s[k];
  }

  lemma MaskArith(v: int, t: int, w: int, low: int, m: int, n: int)
    requires Around(v, t - 1, 256 - w, low, 0) && Times(m, w, low) && Times(n, t * 256, low)
    ensures v + m == n
  {
    assert v + w * low == ((t - 1) * 256 + (256 - w) + w) * low;
  }

  /** The bytewise mask is 2^48 - 2^bits: all ones except for the low bits. */
  lemma MaskValue(mask: seq<byte>, bits: nat)
    requires IsMask(mask, bits)
    ensures Val(mask) + Pow2(bits) == Pow2(8 * |mask|)
  {
    MaskValueAt(mask, bits, bits / 8, bits % 8);
  }

  lemma MaskValueAt(mask: seq<byte>, bits: nat, q: nat, r: nat)
    requires IsMaskAt(mask, q, r) && bits == 8 * q + r
    ensures Val(mask) + Pow2(bits) == Pow2(8 * |mask|)
  {
    MaskAround(mask, q, r);
    BytePowers(bits, q, r);
    TopPowers(|mask|, q);
    MaskArith(Val(mask), Pow2(8 * (5 - q)), Pow2(r), Pow2(8 * q), Pow2(bits), Pow2(8 * |mask|));
  }

  lemma MaskAround(mask: seq<byte>, q: nat, r: nat)
    requires IsMaskAt(mask, q, r)
    ensures Around(Val(mask), Pow2(8 * (5 - q)) - 1, 256 - Pow2(r), Pow2(8 * q), 0)
  {
    ValAround(mask, q);
    var top := mask[..5 - q];
    assert forall k :: 0 <= k < |top| ==> top[k] == 255;
    ValOfOnes(top);
    TailZero(mask, q);
  }

  lemma BytePowers(bits: nat, q: nat, r: nat)
    requires bits == 8 * q + r
    ensures Times(Pow2(bits), Pow2(r), Pow2(8 * q))
  {
    Pow2Add(r, 8 * q);
  }

  lemma SplitByte(r: nat)
    requires r <= 8
    ensures Times(256, Pow2(r), Pow2(8 - r))
  {
    Pow2Add(r, 8 - r);
    Pow2Small();
  }

  lemma TopPowers(n: nat, q: nat)
    requires n == 6 && q <= 5
    ensures Times(Pow2(8 * n), Pow2(8 * (5 - q)) * 256, Pow2(8 * q))
  {
    Pow2Byte(5 - q);
    Pow2Add(8 * (6 - q), 8 * q);
  }

  /** The address has zeros in the low r bits of byte number 5 - q and in all bytes after it. */
  predicate AlignedAt(own: Addr, q: nat, r: nat)
    requires q <= 5
  {
    own[5 - q] as nat % Pow2(r) == 0 && forall k :: 5 - q < k < 6 ==> own[k] == 0
  }

  /** The low bits bits of the address are zero, byte by byte. */
  predicate AlignedBytes(own: Addr, bits: nat)
    requires bits <= 40
  {
    AlignedAt(own, bits / 8, bits % 8)
  }

  lemma MaskedBytes(own: Addr, mask: seq<byte>, bits: nat)
    requires IsMask(mask, bits)
    ensures (forall k :: 0 <= k < 6 ==> And(own[k], mask[k]) == own[k]) <==> AlignedBytes(own, bits)
  {
    MaskedAt(own, mask, bits / 8, bits % 8);
  }

  lemma MaskedAt(own: Addr, mask: seq<byte>, q: nat, r: nat)
    requires IsMaskAt(mask, q, r) && r < 8
    ensures (forall k :: 0 <= k < 6 ==> And(own[k], mask[k]) == own[k]) <==> AlignedAt(own, q, r)
  {
    forall k | 0 <= k < 5 - q ensures And(own[k], mask[k]) == own[k] {
      MaskedByte(own[k], 255, 0);
    }
    MaskedByte(own[5 - q], mask[5 - q], r);
    forall k | 5 - q < k < 6 ensures And(own[k], mask[k]) == 0 {}
    assert AlignedAt(own, q, r) ==> forall k :: 5 - q < k < 6 ==> And(own[k], mask[k]) == own[k];
  }

  lemma MaskedByte(a: byte, m: byte, r: nat)
    requires r < 8 && m as int == 256 - Pow2(r)
    ensures And(a, m) == a <==> a % Pow2(r) == 0
  {
    Pow2Small();
    if And(a, m) == a {
      SplitByte(r);
      MultipleLess(m, Pow2(r), Pow2(8 - r));
      MaskedAligned(a, m, r);
    }
    if a % Pow2(r) == 0 {
      AlignedMasked(a, 8, r);
    }
  }

  lemma MultipleLess(m: nat, w: int, u: int)
    requires w >= 1 && u >= 1 && Times(256, w, u) && m == 256 - w
    ensures m % w == 0
  {
    assert m == (u - 1) * w;
    RemainderUnique(m, w, u - 1, 0);
  }

  /** Byte-wise alignment is alignment of the value. */
  lemma AlignedBytesValue(own: Addr, bits: nat)
    requires bits <= 40
    ensures AlignedBytes(own, bits) <==> Val(own) % Pow2(bits) == 0
  {
    AlignedAtValue(own, bits, bits / 8, bits % 8);
  }

  lemma AlignedAtValue(own: Addr, bits: nat, q: nat, r: nat)
    requires q <= 5 && r < 8 && bits == 8 * q + r
    ensures AlignedAt(own, q, r) <==> Val(own) % Pow2(bits) == 0
  {
    ValAround(own, q);
    TailZero(own, q);
    BytePowers(bits, q, r);
    SplitByte(r);
    AlignedSplit(Val(own), Val(own[..5 - q]), own[5 - q], Pow2(r), Pow2(8 - r), Pow2(8 * q), Pow2(bits),
                 Val(own[6 - q..]));
  }

  lemma AlignedSplit(v: int, p: int, b: int, w: int, u: int, low: int, m: int, tail: int)
    requires Around(v, p, b, low, tail) && w >= 1 && u >= 1 && m >= 1 && v >= 0
    requires Times(256, w, u) && Times(m, w, low)
    ensures tail == 0 && b % w == 0 <==> v % m == 0
  {
    if tail == 0 && b % w == 0 {
      var h := b / w;
      AlignedUp(p, b, h, w, u, low);
      RemainderUnique(v, m, p * u + h, 0);
    }
    if v % m == 0 {
      AlignedDown(v, p, b, v / m, w, u, low, tail);
    }
  }

  lemma AlignedUp(p: int, b: int, h: int, w: int, u: int, low: int)
    requires w * u == 256 && b == h * w
    ensures (p * 256 + b) * low == (p * u + h) * (w * low)
  {
    assert p * 256 + b == (p * u + h) * w by {
      assert p * (w * u) == (p * u) * w;
    }
    assert ((p * u + h) * w) * low == (p * u + h) * (w * low);
  }

  lemma AlignedDown(v: int, p: int, b: int, k: int, w: int, u: int, low: int, tail: int)
    requires Around(v, p, b, low, tail) && w >= 1 && u >= 1 && w * u == 256 && v == k * (w * low)
    ensures tail == 0 && b % w == 0
  {
    assert k * (w * low) == (k * w) * low;
    QuotientUnique(low, p * 256 + b, tail, k * w, 0);
    assert p * (w * u) == (p * u) * w;
    assert k * w - (p * u) * w == (k - p * u) * w;
    RemainderUnique(b, w, k - p * u, 0);
  }

  // ----- every configured address lies in the block -----

  /** First byte in which some configured address differs from ours decides how many bits the mask needs. */
  function SpreadBits(mask: seq<byte>, i: nat): (bits: nat)
    requires |mask| == 6 && i <= 6
    decreases 6 - i
  {
    if i == 6 then 0 else if mask[i] != 0 then (5 - i) * 8 + BitLen(mask[i]) else SpreadBits(mask, i + 1)
  }

  lemma {:induction false} SpreadCovers(mask: seq<byte>, i: nat, bits: nat)
    requires |mask| == 6 && i <= 6 && bits <= 40 && SpreadBits(mask, i) <= bits
    ensures forall k :: i <= k < 5 - bits / 8 ==> mask[k] == 0
    ensures i <= 5 - bits / 8 ==> mask[5 - bits / 8] as nat < Pow2(bits % 8)
    decreases 6 - i
  {
    if i < 6 {
      if mask[i] != 0 {
        assert BitLen(mask[i]) >= 1;
        if i == 5 - bits / 8 {
          Pow2Mono(BitLen(mask[i]), bits % 8);
        }
      } else {
        SpreadCovers(mask, i + 1, bits);
      }
    }
  }

  lemma {:induction false} SpreadBounded(mask: seq<byte>, i: nat, bits: nat)
    requires |mask| == 6 && i <= 6 && bits <= 40
    requires forall k :: i <= k < 5 - bits / 8 ==> mask[k] == 0
    requires i <= 5 - bits / 8 ==> mask[5 - bits / 8] as nat < Pow2(bits % 8)
    ensures SpreadBits(mask, i) <= bits
    decreases 6 - i
  {
    if i < 6 {
      if mask[i] == 0 {
        SpreadBounded(mask, i + 1, bits);
      } else {
        BitLenOfByte(mask[i], if i == 5 - bits / 8 then bits % 8 else 8) by { Pow2Small(); }
      }
    }
  }

  lemma InBlock(own: Addr, c: Addr, mask: seq<byte>, bits: nat)
    requires |mask| == 6 && bits <= 40 && SpreadBits(mask, 0) <= bits && AlignedBytes(own, bits)
    requires forall k :: 0 <= k < 6 ==> Xor(c[k], own[k]) <= mask[k] as nat
    ensures Val(own) <= Val(c) < Val(own) + Pow2(bits)
  {
    SpreadCovers(mask, 0, bits);
    forall k | 0 <= k < 5 - bits / 8 ensures c[k] == own[k] {
      XorZero(c[k], own[k]);
    }
    InBlockAt(own, c, bits, bits / 8, bits % 8);
  }

  lemma InBlockAt(own: Addr, c: Addr, bits: nat, q: nat, r: nat)
    requires q <= 5 && r < 8 && bits == 8 * q + r && AlignedAt(own, q, r)
    requires forall k :: 0 <= k < 5 - q ==> c[k] == own[k]
    requires Xor(c[5 - q], own[5 - q]) < Pow2(r)
    ensures Val(own) <= Val(c) < Val(own) + Pow2(bits)
  {
    assert c[..5 - q] == own[..5 - q];
    XorCommutes(c[5 - q], own[5 - q]);
    XorSmall(own[5 - q], c[5 - q], r);
    ValAround(own, q);
    TailZero(own, q);
    ValAround(c, q);
    BytePowers(bits, q, r);
    BlockArith(Val(own), Val(c), Val(own[..5 - q]), own[5 - q], c[5 - q], Pow2(r), Pow2(8 * q), Pow2(bits),
               Val(c[6 - q..]));
  }

  lemma BlockArith(v: int, v': int, p: int, o: int, c: int, w: int, low: int, m: int, tail: int)
    requires Around(v, p, o, low, 0) && Around(v', p, c, low, tail) && o <= c < o + w && Times(m, w, low)
    ensures v <= v' < v + m
  {
    var d := c - o;
    assert (p * 256 + c) * low == (p * 256 + o) * low + d * low;
    ProductMono(d + 1, w, low);
    assert (d + 1) * low == d * low + low;
    ProductMono(0, d, low);
  }

  /** In the block, the bytes above the mask agree and the split byte differs only in its low bits. */
  lemma FromBlock(own: Addr, c: Addr, bits: nat, q: nat, r: nat)
    requires q <= 5 && r < 8 && bits == 8 * q + r && AlignedAt(own, q, r)
    requires Val(own) <= Val(c) < Val(own) + Pow2(bits)
    ensures forall k :: 0 <= k < 5 - q ==> c[k] == own[k]
    ensures Xor(c[5 - q], own[5 - q]) < Pow2(r)
  {
    ValAround(own, q);
    TailZero(own, q);
    ValAround(c, q);
    BytePowers(bits, q, r);
    SplitByte(r);
    FromBlockArith(Val(own), Val(c), Val(own[..5 - q]), Val(c[..5 - q]), own[5 - q], c[5 - q],
                   Pow2(r), Pow2(8 - r), Pow2(8 * q), Pow2(bits), Val(c[6 - q..]));
    ValInjective(c[..5 - q], own[..5 - q]);
    assert forall k :: 0 <= k < 5 - q ==> c[..5 - q][k] == c[k] && own[..5 - q][k] == own[k];
    XorWithin(own[5 - q], c[5 - q], r);
  }

  lemma FromBlockArith(v: int, v': int, p: int, p': int, o: int, c: int, w: int, u: int, low: int,
                       m: int, tail: int)
    requires Around(v, p, o, low, 0) && Around(v', p', c, low, tail) && v <= v' < v + m && Times(m, w, low)
    requires w >= 1 && Times(256, w, u) && o % w == 0 && o < 256 && c < 256
    ensures p == p' && o <= c < o + w
  {
    BetweenMultiples(p * 256 + o, p' * 256 + c, w, low, v, v', tail);
    AlignedRoom(o, w, u, 256);
  }

  lemma BetweenMultiples(x: int, y: int, w: int, low: int, v: int, v': int, tail: int)
    requires v == x * low && v' == y * low + tail && 0 <= tail < low && v <= v' < v + w * low
    ensures x <= y < x + w
  {
    assert (y + 1) * low == y * low + low;
    Cancel(x, y + 1, low);
    assert (x + w) * low == x * low + w * low;
    Cancel(y, x + w, low);
  }

  lemma AlignedRoom(o: int, w: int, u: int, n: int)
    requires w >= 1 && w * u == n && o % w == 0 && o < n
    ensures o + w <= n
  {
    var h := o / w;
    assert o == h * w && u * w == n;
    Cancel(h, u, w);
    ProductMono(h + 1, u, w);
    assert (h + 1) * w == h * w + w;
  }

}
