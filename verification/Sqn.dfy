/**
 The sequence number SQN of an AKA subscriber, as the HLR/AuC gateway advances it.
 */
module Sqn {
  import opened Bits
  import opened Bytes

  // ----- SQN = SEQ | IND (Annex C.3.2 of 3GPP TS 33.102) -----

  /** An int is shifted left by the length of IND, so that has to stay below its width. */
  const MAX_IND_LEN: nat := 30

  function Seq(v: nat, indLen: nat): nat { v / Pow2(indLen) }

  function Ind(v: nat, indLen: nat): nat { v % Pow2(indLen) }

  /** SEQ in front of an IND of weight p. */
  function Joined(s: nat, i: nat, p: nat): nat { s * p + i }

  /** Both parts advance by one, each in its own modulus. */
  function NextSqn(v: nat, indLen: nat): nat
    requires indLen <= MAX_IND_LEN
  {
    Joined((Seq(v, indLen) + 1) % Pow2(48 - indLen), (v + 1) % Pow2(indLen), Pow2(indLen))
  }

  function SqnAfter(v: nat, indLen: nat, n: nat): nat
    requires indLen <= MAX_IND_LEN
  {
    if n == 0 then v else NextSqn(SqnAfter(v, indLen, n - 1), indLen)
  }

  lemma Parts(s: nat, i: nat, p: nat)
    requires i < p
    ensures Joined(s, i, p) / p == s && Joined(s, i, p) % p == i
  {
    RemainderUnique(s * p + i, p, s, i);
  }

  lemma SqnParts(v: nat, indLen: nat)
    requires indLen <= MAX_IND_LEN
    ensures Seq(NextSqn(v, indLen), indLen) == (Seq(v, indLen) + 1) % Pow2(48 - indLen)
    ensures Ind(NextSqn(v, indLen), indLen) == (v + 1) % Pow2(indLen)
  {
    Parts((Seq(v, indLen) + 1) % Pow2(48 - indLen), (v + 1) % Pow2(indLen), Pow2(indLen));
  }

  /** After n increments SEQ and IND have advanced by n, modulo 2^(48 - indLen) and 2^indLen. */
  lemma SqnAdvances(v: nat, indLen: nat, n: nat)
    requires indLen <= MAX_IND_LEN && Seq(v, indLen) < Pow2(48 - indLen)
    ensures Seq(SqnAfter(v, indLen, n), indLen) == (Seq(v, indLen) + n) % Pow2(48 - indLen)
    ensures Ind(SqnAfter(v, indLen, n), indLen) == (Ind(v, indLen) + n) % Pow2(indLen)
  {
    SeqAdvances(v, indLen, n);
    IndAdvances(v, indLen, n);
  }

  lemma {:induction false} SeqAdvances(v: nat, indLen: nat, n: nat)
    requires indLen <= MAX_IND_LEN && Seq(v, indLen) < Pow2(48 - indLen)
    ensures Seq(SqnAfter(v, indLen, n), indLen) == (Seq(v, indLen) + n) % Pow2(48 - indLen)
  {
    var s, q := Seq(v, indLen), Pow2(48 - indLen);
    if n == 0 {
      SmallMod(s, q);
    } else {
      SeqAdvances(v, indLen, n - 1);
      var u := SqnAfter(v, indLen, n - 1);
      SqnParts(u, indLen);
      var t := Seq(u, indLen);
      ModAgain(s + (n - 1), q);
      StepMod(s, n - 1, t, q);
    }
  }

  lemma {:induction false} IndAdvances(v: nat, indLen: nat, n: nat)
    requires indLen <= MAX_IND_LEN
    ensures Ind(SqnAfter(v, indLen, n), indLen) == (Ind(v, indLen) + n) % Pow2(indLen)
  {
    var i, p := Ind(v, indLen), Pow2(indLen);
    if n == 0 {
      SmallMod(i, p);
    } else {
      IndAdvances(v, indLen, n - 1);
      var u := SqnAfter(v, indLen, n - 1);
      SqnParts(u, indLen);
      StepMod(i, n - 1, u, p);
    }
  }

  /** SQN rises with every increment exactly until SEQ wraps. */
  lemma SqnRisesExactly(v: nat, indLen: nat)
    requires indLen <= MAX_IND_LEN && Seq(v, indLen) < Pow2(48 - indLen)
    ensures NextSqn(v, indLen) > v <==> Seq(v, indLen) + 1 < Pow2(48 - indLen)
  {
    Pow2Mono(1, 48 - indLen);
    Rises(v, Seq(v, indLen), v % Pow2(indLen), Pow2(indLen), Pow2(48 - indLen));
  }

  lemma Rises(v: nat, s: nat, i: nat, p: nat, q: nat)
    requires i < p && v == s * p + i && s < q && q >= 2
    ensures (s + 1) % q * p + (v + 1) % p > v <==> s + 1 < q
  {
    if s + 1 < q {
      RemainderUnique(s + 1, q, 0, s + 1);
      assert (s + 1) * p == s * p + p;
    } else {
      RemainderUnique(s + 1, q, 1, 0);
      ProductMono(1, s, p);
    }
  }

  /** A later SQN is larger than an earlier one as long as SEQ has not wrapped. */
  lemma {:induction false} SqnRises(v: nat, indLen: nat, m: nat, n: nat)
    requires indLen <= MAX_IND_LEN && m < n && Seq(v, indLen) + n < Pow2(48 - indLen)
    ensures SqnAfter(v, indLen, m) < SqnAfter(v, indLen, n)
  {
    var u, q := SqnAfter(v, indLen, n - 1), Pow2(48 - indLen);
    SqnAdvances(v, indLen, n - 1);
    RemainderUnique(Seq(v, indLen) + (n - 1), q, 0, Seq(v, indLen) + (n - 1));
    SqnRisesExactly(u, indLen);
    if m < n - 1 { SqnRises(v, indLen, m, n - 1); }
  }

  // ----- inc_sqn -----

  lemma Stored(s: nat, i: nat, p: nat, q: nat)
    requires i < p && s < q && q * p == ADDRESSES
    ensures Joined(s + 1, i, p) % ADDRESSES == Joined((s + 1) % q, i, p)
  {
    if s + 1 < q {
      RemainderUnique(s + 1, q, 0, s + 1);
      ProductMono(s + 2, q, p);
      assert (s + 2) * p == (s + 1) * p + p;
    } else {
      RemainderUnique(s + 1, q, 1, 0);
      ProductMono(1, q, p);
    }
  }

  function Be16(a: nat, b: nat): nat { a * 256 + b }

  function Be32(a: nat, b: nat, c: nat, d: nat): nat { ((a * 256 + b) * 256 + c) * 256 + d }

  lemma ValOfSix(s: seq<byte>)
    requires |s| == 6
    ensures Val(s) == Be32(s[0], s[1], s[2], s[3]) * 0x1_0000 + Be16(s[4], s[5])
  {
    assert s[..5][..4] == s[..4] && s[..4][..3] == s[..3] && s[..3][..2] == s[..2] && s[..2][..1] == s[..1];
    assert s[..1][..0] == [];
    assert Val(s[..1]) == s[0];
    assert Val(s[..2]) == Be16(s[0], s[1]);
    assert Val(s[..3]) == Val(s[..2]) * 256 + s[2];
    assert Val(s[..4]) == Be32(s[0], s[1], s[2], s[3]);
    assert Val(s[..5]) == Val(s[..4]) * 256 + s[4];
  }

  lemma BytesOf16(lo: nat)
    ensures Be16(lo / 256, lo % 256) == lo
  {}

  lemma BytesOf32(hi: nat)
    requires hi < 0x1_0000_0000
    ensures Be32(hi / 0x100_0000, hi / 0x1_0000 % 256, hi / 256 % 256, hi % 256) == hi
  {
    assert hi / 0x1_0000 == hi / 0x100_0000 * 256 + hi / 0x1_0000 % 256;
    assert hi / 256 == hi / 0x1_0000 * 256 + hi / 256 % 256;
  }

  lemma Words(val: nat)
    ensures val / 0x1_0000 % 0x1_0000_0000 * 0x1_0000 + val % 0x1_0000 == val % ADDRESSES
  {}

  /** The low 48 bits of val, most significant byte first. */
  method PutSqn(sqn: array<byte>, val: nat)
    requires sqn.Length == 6
    modifies sqn
    ensures Val(sqn[..]) == val % ADDRESSES
  {
    var hi, lo := val / 0x1_0000 % 0x1_0000_0000, val % 0x1_0000;
    sqn[0] := hi / 0x100_0000;
    sqn[1] := hi / 0x1_0000 % 256;
    sqn[2] := hi / 256 % 256;
    sqn[3] := hi % 256;
    sqn[4] := lo / 256;
    sqn[5] := lo % 256;
    ValOfSix(sqn[..]);
    BytesOf32(hi);
    BytesOf16(lo);
    Words(val);
  }

  /** x & ((1 << k) - 1) */
  method LowBits(x: nat, k: nat) returns (r: nat)
    ensures r == x % Pow2(k)
  {
    AndLowBits(x, k, Pow2(k));
    r := And(x, Pow2(k) - 1);
  }

  /** (hi << k) | lo */
  method Join(hi: nat, lo: nat, k: nat) returns (r: nat)
    requires lo < Pow2(k)
    ensures r == Joined(hi, lo, Pow2(k))
  {
    OrShifted(hi, lo, k);
    r := Or(hi * Pow2(k), lo);
  }

  lemma NextStored(v: nat, indLen: nat)
    requires v < ADDRESSES && indLen <= MAX_IND_LEN
    ensures Joined(Seq(v, indLen) + 1, (v + 1) % Pow2(indLen), Pow2(indLen)) % ADDRESSES == NextSqn(v, indLen)
  {
    var p, q := Pow2(indLen), Pow2(48 - indLen);
    SqnSpace(indLen);
    SeqBound(v, Seq(v, indLen), p, q);
    Stored(Seq(v, indLen), (v + 1) % p, p, q);
  }

  lemma SqnSpace(k: nat)
    requires k <= MAX_IND_LEN
    ensures Pow2(48 - k) * Pow2(k) == ADDRESSES
  {
    AddressSpace();
    SplitPower(48, k);
  }

  lemma SeqBound(v: nat, s: nat, p: nat, q: nat)
    requires p >= 1 && s == v / p && v < q * p
    ensures s < q
  {
    assert s * p <= v;
    Cancel(s, q, p);
  }

  /** Increment SEQ and IND; the result still has the carry out of SEQ. */
  method AdvanceParts(v: nat, indLen: nat) returns (val: nat)
    requires v < ADDRESSES && indLen <= MAX_IND_LEN
    ensures val % ADDRESSES == NextSqn(v, indLen)
  {
    var ind := LowBits(v + 1, indLen);
    val := Join(Seq(v, indLen) + 1, ind, indLen);
    NextStored(v, indLen);
  }

  method GetSqn(sqn: array<byte>) returns (val: nat)
    requires sqn.Length == 6
    ensures val == Val(sqn[..]) < ADDRESSES
  {
    ValOfSix(sqn[..]);
    val := Be32(sqn[0], sqn[1], sqn[2], sqn[3]) * 0x1_0000 + Be16(sqn[4], sqn[5]);
  }

  method IncSqn(sqn: array<byte>, indLen: nat)
    requires sqn.Length == 6 && indLen <= MAX_IND_LEN
    modifies sqn
    ensures Val(sqn[..]) == NextSqn(old(Val(sqn[..])), indLen)
  {
    var val := GetSqn(sqn);
    val := AdvanceParts(val, indLen);
    PutSqn(sqn, val);
  }
}
