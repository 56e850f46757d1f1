/**
 Address allocation for the BSSes of one radio, in the order in which they are
 set up. A BSS without configured BSSID gets the first address after the last
 one chosen that no BSS is configured with.
 */
module BssidAlloc {
  import opened Bits
  import opened Bytes
  import opened Bssid
  import opened BssidSetup

  /** The addresses that occur in the configuration, the zero address of unconfigured BSSes included. */
  function Taken(conf: seq<Addr>): set<nat> {
    set a | a in conf :: Val(a)
  }

  lemma TakenExactly(conf: seq<Addr>, a: Addr)
    ensures Val(a) in Taken(conf) <==> a in conf
  {
    forall c | c in conf && Val(c) == Val(a) ensures c == a { ValInjective(c, a); }
  }

  lemma AddrBound(a: Addr)
    ensures Val(a) < ADDRESSES
  {
    ValBound(a);
    AddressSpace();
  }

  lemma {:induction false} TakenSize(conf: seq<Addr>, n: nat)
    requires n <= |conf|
    ensures |Taken(conf[..n])| <= n
  {
    if n > 0 {
      TakenSize(conf, n - 1);
      TakenStep(conf, n - 1);
    }
  }

  lemma TakenStep(conf: seq<Addr>, n: nat)
    requires n < |conf|
    ensures Taken(conf[..n + 1]) == Taken(conf[..n]) + {Val(conf[n])}
  {
    assert conf[..n + 1] == conf[..n] + [conf[n]];
  }

  // ----- one allocation -----

  /** Byte-array counter: ripple the carry up from the last byte. */
  method IncByteArray(counter: array<byte>)
    modifies counter
    ensures counter[..] == Inc(old(counter[..]))
  {
    ghost var was := counter[..];
    var pos := counter.Length - 1;
    assert was[..pos + 1] == was;
    while pos >= 0
      invariant -1 <= pos < counter.Length
      invariant forall k :: 0 <= k <= pos ==> counter[k] == was[k]
      invariant Inc(was) == Inc(was[..pos + 1]) + counter[pos + 1..]
    {
      ghost var up := was[..pos + 1];
      assert up[..pos] == was[..pos];
      counter[pos] := ((counter[pos] as int + 1) % 256) as byte;
      if counter[pos] != 0 {
        assert counter[..] == was[..pos] + [was[pos] + 1] + counter[pos + 1..];
        return;
      }
      assert counter[pos..] == [0] + counter[pos + 1..];
      pos := pos - 1;
    }
  }

  method MacInConf(conf: seq<Addr>, a: Addr) returns (found: bool)
    ensures found <==> Val(a) in Taken(conf)
  {
    TakenExactly(conf, a);
    for i := 0 to |conf|
      invariant a !in conf[..i]
    {
      if conf[i] == a {
        return true;
      }
    }
    return false;
  }

  /** First address after v, counting around the end of the address space, that is not taken. */
  function NextAddress(taken: set<nat>, v: nat): nat {
    var r := NextFree(taken, v);
    if r < ADDRESSES then r else FirstFree(taken)
  }

  function FirstFree(taken: set<nat>): nat {
    if 0 !in taken then 0 else NextFree(taken, 0)
  }

  lemma {:induction false} FullRange(taken: set<nat>, n: nat)
    requires forall x :: 0 <= x < n ==> x in taken
    ensures |taken| >= n
  {
    if n > 0 { FullRange(taken - {n - 1}, n - 1); }
  }

  lemma FirstFreeExists(taken: set<nat>)
    requires |taken| < ADDRESSES
    ensures FirstFree(taken) < ADDRESSES && FirstFree(taken) !in taken
  {
    NextFreeIsLeast(taken, 0);
    if FirstFree(taken) >= ADDRESSES { FullRange(taken, ADDRESSES); }
  }

  /** The address after v, modulo 2^48. */
  function After(v: nat): nat {
    if v + 1 == ADDRESSES then 0 else v + 1
  }

  lemma CountUp(a: Addr)
    ensures Val(Inc(a)) == After(Val(a)) && Val(a) < ADDRESSES
  {
    IncCounts(a);
    AddrBound(a);
    AddressSpace();
  }

  /** One turn of the search loop. */
  method TryNext(conf: seq<Addr>, addr: array<byte>) returns (found: bool)
    requires addr.Length == 6
    modifies addr
    ensures Val(addr[..]) == After(old(Val(addr[..]))) < ADDRESSES
    ensures found <==> Val(addr[..]) in Taken(conf)
  {
    CountUp(addr[..]);
    IncByteArray(addr);
    CountUp(addr[..]);
    found := MacInConf(conf, addr[..]);
  }

  method NextBssid(conf: seq<Addr>, addr: array<byte>)
    requires addr.Length == 6 && |conf| < ADDRESSES
    modifies addr
    ensures Val(addr[..]) == NextAddress(Taken(conf), old(Val(addr[..])))
  {
    ghost var taken, v := Taken(conf), Val(addr[..]);
    assert conf[..|conf|] == conf;
    TakenSize(conf, |conf|);
    FirstFreeExists(taken);
    NextFreeIsLeast(taken, v);
    NextFreeIsLeast(taken, 0);
    ghost var wrapped := v + 1 == ADDRESSES;
    var found := TryNext(conf, addr);
    while found
      invariant found <==> Val(addr[..]) in taken
      invariant Val(addr[..]) < ADDRESSES
      invariant !wrapped ==> v < Val(addr[..]) <= NextFree(taken, v)
      invariant wrapped ==> Val(addr[..]) <= FirstFree(taken) && NextFree(taken, v) >= ADDRESSES
      decreases !wrapped, ADDRESSES - Val(addr[..])
    {
      wrapped := wrapped || Val(addr[..]) + 1 == ADDRESSES;
      found := TryNext(conf, addr);
    }
  }

  // ----- the loop over the BSSes -----

  /** How many BSSes among 1 .. n-1 have no address configured. */
  function Autos(conf: seq<Addr>, n: nat): nat
    requires n <= |conf|
  {
    if n <= 1 then 0 else Autos(conf, n - 1) + if conf[n - 1] == ZERO then 1 else 0
  }

  /** The m-th address chosen. */
  function AutoAddr(taken: set<nat>, own: nat, m: nat): nat {
    if m == 0 then own else NextAddress(taken, AutoAddr(taken, own, m - 1))
  }

  /** The address BSS j ends up with. */
  function Assigned(conf: seq<Addr>, own: Addr, j: nat): nat
    requires j < |conf|
  {
    if j == 0 then Val(own)
    else if conf[j] != ZERO then Val(conf[j])
    else AutoAddr(Taken(conf), Val(own), Autos(conf, j + 1))
  }

  /** No BSS but the first may be configured with the radio's own address. */
  predicate SparesOwn(conf: seq<Addr>, own: Addr) {
    forall j :: 1 <= j < |conf| && conf[j] != ZERO ==> conf[j] != own
  }

  /** The address part of setting up BSS j, which starts out with a copy of the last address chosen. */
  method SetupBss(conf: seq<Addr>, owns: array<Addr>, j: nat) returns (ok: bool)
    requires j < |conf| == owns.Length && |conf| < ADDRESSES
    modifies owns
    ensures forall i :: 0 <= i < owns.Length && i != j ==> owns[i] == old(owns[i])
    ensures j == 0 ==> ok && owns[j] == old(owns[j])
    ensures j > 0 && conf[j] != ZERO ==> owns[j] == conf[j] && ok == (conf[j] != owns[0])
    ensures j > 0 && conf[j] == ZERO ==> ok && Val(owns[j]) == NextAddress(Taken(conf), Val(old(owns[j])))
  {
    if j > 0 {
      if conf[j] != ZERO {
        owns[j] := conf[j];
        if owns[j] == owns[0] {
          return false;
        }
      } else {
        var a := owns[j];
        var addr := new byte[6](i requires 0 <= i < 6 => a[i]);
        assert addr[..] == a;
        NextBssid(conf, addr);
        owns[j] := addr[..];
      }
    }
    return true;
  }

  method SetupBsses(conf: seq<Addr>, owns: array<Addr>) returns (ok: bool)
    requires 1 <= |conf| == owns.Length < ADDRESSES
    modifies owns
    ensures ok <==> SparesOwn(conf, old(owns[0]))
    ensures ok ==> forall j :: 0 <= j < |conf| ==> Val(owns[j]) == Assigned(conf, old(owns[0]), j)
  {
    ghost var own := owns[0];
    var prev := 0;
    for j := 0 to |conf|
      invariant 0 <= prev < |conf| && (prev == 0 || prev < j) && owns[0] == own
      invariant prev == 0 || conf[prev] == ZERO
      invariant Val(owns[prev]) == AutoAddr(Taken(conf), Val(own), Autos(conf, j))
      invariant forall i :: 1 <= i < j && conf[i] != ZERO ==> conf[i] != own
      invariant forall i :: 0 <= i < j ==> Val(owns[i]) == Assigned(conf, own, i)
    {
      if j > 0 {
        owns[j] := owns[prev];
      }
      ok := SetupBss(conf, owns, j);
      if !ok {
        return;
      }
      if conf[j] == ZERO {
        prev := j;
      }
    }
    return true;
  }

  // ----- where the chosen addresses lie -----

  lemma {:induction false} AutosMono(conf: seq<Addr>, m: nat, n: nat)
    requires m <= n <= |conf|
    ensures Autos(conf, m) <= Autos(conf, n)
  {
    if m < n { AutosMono(conf, m, n - 1); }
  }

  /** Configured addresses strictly inside the block. */
  function Inside(conf: seq<Addr>, own: Addr, size: nat): set<nat> {
    TakenInside(Taken(conf), Val(own), size)
  }

  lemma InsideStep(conf: seq<Addr>, own: Addr, size: nat, n: nat)
    requires n < |conf|
    ensures var before, after, x := Inside(conf[..n], own, size), Inside(conf[..n + 1], own, size), Val(conf[n]);
      after == if conf[n] != ZERO && Val(own) < x < Val(own) + size then before + {x} else before
  {
    TakenStep(conf, n);
    ZeroAddr();
  }

  /** BSSes to be given an address and distinct configured addresses inside the block: one per BSS at most. */
  lemma {:induction false} AtMostOneEach(conf: seq<Addr>, own: Addr, size: nat, n: nat)
    requires n <= |conf|
    ensures Autos(conf, n) + |Inside(conf[..n], own, size)| <= n
    ensures n >= 1 && (conf[0] == ZERO || conf[0] == own) ==> Autos(conf, n) + |Inside(conf[..n], own, size)| <= n - 1
  {
    if n == 0 {
      assert Inside(conf[..0], own, size) == {};
    } else {
      AtMostOneEach(conf, own, size, n - 1);
      InsideStep(conf, own, size, n - 1);
    }
  }

  lemma ZeroAddr()
    ensures Val(ZERO) == 0
  {
    ValOfZeros(ZERO);
  }

  /** There is an address in the block for every BSS that needs one. */
  predicate Room(conf: seq<Addr>, own: Addr, b: nat) {
    Autos(conf, |conf|) + |Inside(conf, own, Pow2(b))| <= Pow2(b) - 1
  }

  /** The address of BSS 0 is the radio's, so if it is not configured to something else there is always room. */
  lemma RoomUnlessFirstMoved(conf: seq<Addr>, own: Addr, b: nat)
    requires |conf| >= 1 && Fits(conf, own, b) && (conf[0] == ZERO || conf[0] == own)
    ensures Room(conf, own, b)
  {
    AtMostOneEach(conf, own, Pow2(b), |conf|);
    assert conf[..|conf|] == conf;
  }

  /** Counting without the end of the address space in the way. */
  lemma {:induction false} AutoAddrIsAlloc(taken: set<nat>, own: nat, m: nat)
    requires Alloc(taken, own, m) < ADDRESSES
    ensures AutoAddr(taken, own, m) == Alloc(taken, own, m)
  {
    if m > 0 {
      AllocIncreasing(taken, own, m - 1, m);
      AutoAddrIsAlloc(taken, own, m - 1);
    }
  }

  lemma BlockEnds(own: Addr, b: nat)
    requires b <= 40 && Val(own) % Pow2(b) == 0
    ensures Val(own) + Pow2(b) <= ADDRESSES && Pow2(b) <= 0x100_0000_0000
  {
    AddrBound(own);
    AddressSpace();
    SplitPower(48, b);
    AlignedRoom(Val(own), Pow2(b), Pow2(48 - b), ADDRESSES);
    WidestBlock(b);
  }

  lemma WidestBlock(b: nat)
    requires b <= 40
    ensures Pow2(b) <= 0x100_0000_0000
  {
    Pow2Mono(b, 40);
    Pow2Small();
    Pow2Add(8, 8);
    Pow2Add(16, 16);
    Pow2Add(32, 8);
  }

  lemma TakenWhere(conf: seq<Addr>, own: Addr, b: nat, x: nat)
    requires Fits(conf, own, b) && x in Taken(conf)
    ensures x == 0 || Val(own) <= x < Val(own) + Pow2(b)
  {
    ZeroAddr();
  }

  /** Once the block is full the search leaves it by one address. */
  lemma LeavesBlockByOne(conf: seq<Addr>, own: Addr, b: nat, u: nat)
    requires Fits(conf, own, b) && ZERO in conf
    requires Val(own) <= u && NextFree(Taken(conf), u) >= Val(own) + Pow2(b) > u
    ensures NextAddress(Taken(conf), u) == if Val(own) + Pow2(b) < ADDRESSES then Val(own) + Pow2(b) else 1
  {
    var taken, end := Taken(conf), Val(own) + Pow2(b);
    NextFreeIsLeast(taken, u);
    BlockEnds(own, b);
    if end in taken { TakenWhere(conf, own, b, end); }
    if end == ADDRESSES {
      TakenExactly(conf, ZERO);
      ZeroAddr();
      if 1 in taken { TakenWhere(conf, own, b, 1); }
    }
  }

  lemma ChosenFits(conf: seq<Addr>, own: Addr, b: nat, m: nat)
    requires Fits(conf, own, b) && m >= 1 && m + |Inside(conf, own, Pow2(b))| <= Pow2(b) - 1
    ensures var v := AutoAddr(Taken(conf), Val(own), m);
      Val(own) < v == Alloc(Taken(conf), Val(own), m) < Val(own) + Pow2(b) && v !in Taken(conf)
  {
    var taken := Taken(conf);
    BlockEnds(own, b);
    AllocStaysInBlock(taken, Val(own), Pow2(b), m);
    AllocIsMthFree(taken, Val(own), m);
    AllocIsMthFree(taken, Val(own), m - 1);
    AutoAddrIsAlloc(taken, Val(own), m);
  }

  lemma ChosenOverflows(conf: seq<Addr>, own: Addr, b: nat, m: nat)
    requires Fits(conf, own, b) && ZERO in conf && m >= 1 && m + |Inside(conf, own, Pow2(b))| == Pow2(b)
    ensures var v := AutoAddr(Taken(conf), Val(own), m);
      && v == (if Val(own) + Pow2(b) < ADDRESSES then Val(own) + Pow2(b) else 1)
      && v != Val(own) && v !in Taken(conf)
  {
    var taken, size := Taken(conf), Pow2(b);
    BlockEnds(own, b);
    AllocStaysInBlock(taken, Val(own), size, m);
    AllocStaysInBlock(taken, Val(own), size, m - 1);
    AllocIsMthFree(taken, Val(own), m - 1);
    AutoAddrIsAlloc(taken, Val(own), m - 1);
    LeavesBlockByOne(conf, own, b, Alloc(taken, Val(own), m - 1));
    var v := AutoAddr(taken, Val(own), m);
    if v in taken { TakenWhere(conf, own, b, v); }
  }

  /** Where the m-th address chosen lies: inside the block, or when that is full one address behind it. */
  predicate Placed(conf: seq<Addr>, own: Addr, b: nat, m: nat, v: nat) {
    if m + |Inside(conf, own, Pow2(b))| <= Pow2(b) - 1 then
      Val(own) < v == Alloc(Taken(conf), Val(own), m) < Val(own) + Pow2(b)
    else
      m == Autos(conf, |conf|) && v == if Val(own) + Pow2(b) < ADDRESSES then Val(own) + Pow2(b) else 1
  }

  lemma ChosenAddress(conf: seq<Addr>, own: Addr, b: nat, j: nat, m: nat)
    requires Fits(conf, own, b) && 1 <= j < |conf| && conf[j] == ZERO && m == Autos(conf, j + 1)
    ensures 1 <= m <= Autos(conf, |conf|)
    ensures Placed(conf, own, b, m, Assigned(conf, own, j))
    ensures Val(own) != Assigned(conf, own, j) && Assigned(conf, own, j) !in Taken(conf)
  {
    AutosMono(conf, j + 1, |conf|);
    AtMostOneEach(conf, own, Pow2(b), |conf|);
    assert conf[..|conf|] == conf;
    assert conf[j] in conf;
    ChosenPlaced(conf, own, b, m);
  }

  lemma ChosenPlaced(conf: seq<Addr>, own: Addr, b: nat, m: nat)
    requires Fits(conf, own, b) && ZERO in conf && 1 <= m <= Autos(conf, |conf|)
    requires Autos(conf, |conf|) + |Inside(conf, own, Pow2(b))| <= Pow2(b)
    ensures var v := AutoAddr(Taken(conf), Val(own), m);
      Placed(conf, own, b, m, v) && v != Val(own) && v !in Taken(conf)
  {
    if m + |Inside(conf, own, Pow2(b))| <= Pow2(b) - 1 {
      ChosenFits(conf, own, b, m);
    } else {
      ChosenOverflows(conf, own, b, m);
    }
  }

  /** No address is configured twice; the configuration check makes sure of that. */
  predicate NoDuplicates(conf: seq<Addr>) {
    forall i, j :: 0 <= i < j < |conf| && conf[i] != ZERO ==> conf[i] != conf[j]
  }

  ghost predicate Accepted(conf: seq<Addr>, own: Addr) {
    && NoDuplicates(conf) && SparesOwn(conf, own)
    && (HasAuto(conf) ==> exists b :: Fits(conf, own, b))
  }

  /** Every BSS has an address of its own. */
  lemma AddressesDistinct(conf: seq<Addr>, own: Addr, j: nat, k: nat)
    requires Accepted(conf, own) && j < k < |conf|
    ensures Assigned(conf, own, j) != Assigned(conf, own, k)
  {
    if conf[k] != ZERO {
      TakenExactly(conf, conf[k]);
      if j > 0 && conf[j] == ZERO {
        ChosenIsFree(conf, own, j);
      } else if Assigned(conf, own, j) == Val(conf[k]) {
        ValInjective(if j == 0 then own else conf[j], conf[k]);
      }
    } else {
      ChosenIsFree(conf, own, k);
      if j > 0 && conf[j] != ZERO {
        TakenExactly(conf, conf[j]);
      } else if j > 0 {
        var b :| Fits(conf, own, b);
        ChosenApart(conf, own, b, j, k);
      }
    }
  }

  lemma ChosenIsFree(conf: seq<Addr>, own: Addr, j: nat)
    requires Accepted(conf, own) && 1 <= j < |conf| && conf[j] == ZERO
    ensures Val(own) != Assigned(conf, own, j) && Assigned(conf, own, j) !in Taken(conf)
  {
    assert HasAuto(conf);
    var b :| Fits(conf, own, b);
    ChosenAddress(conf, own, b, j, Autos(conf, j + 1));
  }

  lemma ChosenApart(conf: seq<Addr>, own: Addr, b: nat, j: nat, k: nat)
    requires Fits(conf, own, b) && 1 <= j < k < |conf| && conf[j] == conf[k] == ZERO
    ensures Assigned(conf, own, j) != Assigned(conf, own, k)
  {
    var m, n := Autos(conf, j + 1), Autos(conf, k + 1);
    AutosMono(conf, j + 1, k);
    ChosenAddress(conf, own, b, j, m);
    ChosenAddress(conf, own, b, k, n);
    AllocIncreasing(Taken(conf), Val(own), m, n);
    AllocIsMthFree(Taken(conf), Val(own), m);
    AutosMono(conf, k + 1, |conf|);
    BlockEnds(own, b);
  }

  /** All BSSes are inside the block under the mask exactly when there is room for those without address. */
  lemma InBlockExactly(conf: seq<Addr>, own: Addr, b: nat)
    requires |conf| >= 1 && Fits(conf, own, b)
    ensures (forall j :: 0 <= j < |conf| ==> Val(own) <= Assigned(conf, own, j) < Val(own) + Pow2(b))
            <==> Room(conf, own, b)
  {
    if Room(conf, own, b) {
      forall j | 0 <= j < |conf|
        ensures Val(own) <= Assigned(conf, own, j) < Val(own) + Pow2(b)
      {
        if j > 0 && conf[j] == ZERO {
          ChosenAddress(conf, own, b, j, Autos(conf, j + 1));
          AllocIsMthFree(Taken(conf), Val(own), Autos(conf, j + 1));
        }
      }
    } else {
      InsideFewer(conf, own, Pow2(b));
      var j := LastAuto(conf, |conf|);
      ChosenAddress(conf, own, b, j, Autos(conf, j + 1));
      BlockEnds(own, b);
    }
  }

  lemma InsideFewer(conf: seq<Addr>, own: Addr, size: nat)
    requires size >= 1
    ensures |Inside(conf, own, size)| <= size - 1
  {
    FreePlusTaken(Taken(conf), Val(own), size);
  }

  lemma {:induction false} LastAuto(conf: seq<Addr>, n: nat) returns (j: nat)
    requires n <= |conf| && Autos(conf, n) >= 1
    ensures 1 <= j < n && conf[j] == ZERO && Autos(conf, j + 1) == Autos(conf, n)
  {
    if conf[n - 1] == ZERO { j := n - 1; } else { j := LastAuto(conf, n - 1); }
  }

  const RADIO: Addr := [2, 0, 0, 0, 0, 0]
  const FIRST: Addr := [2, 0, 0, 0, 0, 1]

  /**
   A driver that keeps another address than the one configured for BSS 0: the
   configured address uses up one in the block and the second of the two BSSes
   ends up outside it.
   */
  lemma FirstBssElsewhere()
    ensures Accepted([FIRST, ZERO], RADIO) && Fits([FIRST, ZERO], RADIO, 1)
    ensures Assigned([FIRST, ZERO], RADIO, 1) == Val(RADIO) + 2
  {
    var conf := [FIRST, ZERO];
    ElsewhereFits();
    assert FIRST in conf && ZERO in conf;
    TakenExactly(conf, FIRST);
    ZeroAddr();
    assert Autos(conf, 2) == 1;
    ChosenAddress(conf, RADIO, 1, 1, 1);
    assert Inside(conf, RADIO, 2) == {Val(RADIO) + 1};
    FiveBytes(RADIO[..5]);
  }

  lemma ElsewhereFits()
    ensures Val(FIRST) == Val(RADIO) + 1 && Val(RADIO) == 256 * Val(RADIO[..5])
    ensures Fits([FIRST, ZERO], RADIO, 1)
  {
    assert RADIO[..5] == FIRST[..5];
    assert RADIO[5] == 0 && FIRST[5] == 1;
    var h := 128 * Val(RADIO[..5]);
    assert Val(RADIO) == 2 * h;
  }

  lemma FiveBytes(s: seq<byte>)
    requires |s| == 5
    ensures Val(s) < 0x100_0000_0000
  {
    ValBound(s);
    WidestBlock(40);
  }

  /** Validation and set-up together. */
  method SetupInterface(conf: seq<Addr>, owns: array<Addr>) returns (ok: bool)
    requires 1 <= |conf| == owns.Length < ADDRESSES && NoDuplicates(conf)
    modifies owns
    ensures ok <==> Accepted(conf, old(owns[0]))
    ensures ok ==> owns[0] == old(owns[0])
    ensures ok ==> forall j, k :: 0 <= j < k < |conf| ==> owns[j] != owns[k]
    ensures ok ==> forall j :: 1 <= j < |conf| ==> if conf[j] != ZERO then owns[j] == conf[j] else owns[j] !in conf
    ensures ok && HasAuto(conf) ==> forall b :: Fits(conf, owns[0], b) ==>
              ((forall j :: 0 <= j < |conf| ==> Val(owns[0]) <= Val(owns[j]) < Val(owns[0]) + Pow2(b))
               <==> Room(conf, owns[0], b))
  {
    ghost var own := owns[0];
    var bits;
    ok, bits := Validate(conf, owns[0]);
    if ok {
      ok := SetupBsses(conf, owns);
      if ok {
        ValInjective(owns[0], own);
        SetupFacts(conf, owns[..]);
      }
    }
  }

  lemma SetupFacts(conf: seq<Addr>, owns: seq<Addr>)
    requires 1 <= |conf| == |owns| && Accepted(conf, owns[0])
    requires forall j :: 0 <= j < |conf| ==> Val(owns[j]) == Assigned(conf, owns[0], j)
    ensures forall j, k :: 0 <= j < k < |conf| ==> owns[j] != owns[k]
    ensures forall j :: 1 <= j < |conf| ==> if conf[j] != ZERO then owns[j] == conf[j] else owns[j] !in conf
    ensures HasAuto(conf) ==> forall b :: Fits(conf, owns[0], b) ==>
              ((forall j :: 0 <= j < |conf| ==> Val(owns[0]) <= Val(owns[j]) < Val(owns[0]) + Pow2(b))
               <==> Room(conf, owns[0], b))
  {
    forall j, k | 0 <= j < k < |conf| ensures owns[j] != owns[k] {
      AddressesDistinct(conf, owns[0], j, k);
    }
    forall j | 1 <= j < |conf| ensures if conf[j] != ZERO then owns[j] == conf[j] else owns[j] !in conf {
      if conf[j] != ZERO {
        ValInjective(owns[j], conf[j]);
      } else {
        ChosenIsFree(conf, owns[0], j);
        TakenExactly(conf, owns[j]);
      }
    }
    forall b | Fits(conf, owns[0], b)
      ensures (forall j :: 0 <= j < |conf| ==> Val(owns[0]) <= Val(owns[j]) < Val(owns[0]) + Pow2(b))
              <==> Room(conf, owns[0], b)
    {
      InBlockExactly(conf, owns[0], b);
    }
  }
}
