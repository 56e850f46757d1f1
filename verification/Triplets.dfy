/**
 Round-robin choice among the GSM triplets of a subscriber: a cursor into the
 one list of all triplets moves to just behind the last one handed out.
 */
module Triplets {
  import opened Bytes

  datatype Triplet = Triplet(imsi: string, kc: seq<byte>, sres: seq<byte>, rand: seq<byte>)

  /** First triplet of the subscriber in db[lo..hi]. */
  function Scan(db: seq<Triplet>, imsi: string, lo: nat, hi: nat): (r: Option<nat>)
    requires hi <= |db|
    ensures r.Some? ==> lo <= r.value < hi
    decreases hi - lo
  {
    if lo >= hi then None else if db[lo].imsi == imsi then Some(lo) else Scan(db, imsi, lo + 1, hi)
  }

  /** The triplet handed out with the cursor at pos; |db| stands for the null cursor. */
  function Lookup(db: seq<Triplet>, pos: nat, imsi: string): Option<nat>
    requires pos <= |db|
  {
    var g := Scan(db, imsi, pos, |db|);
    if g.Some? then g else Scan(db, imsi, 0, pos)
  }

  class TripletDb {
    var db: seq<Triplet>
    var pos: nat

    constructor (triplets: seq<Triplet>)
      ensures db == triplets && pos == |db|
    {
      db, pos := triplets, |triplets|;
    }

    /** get_gsm_triplet; the result is the position in the list. */
    method GetGsmTriplet(imsi: string) returns (r: Option<nat>)
      requires pos <= |db|
      modifies this`pos
      ensures r == Lookup(db, old(pos), imsi)
      ensures pos == if r.Some? then r.value + 1 else old(pos)
      ensures pos <= |db|
    {
      var g := pos;
      while g != |db|
        invariant g <= |db| && Scan(db, imsi, pos, |db|) == Scan(db, imsi, g, |db|)
        decreases |db| - g
      {
        if db[g].imsi == imsi {
          pos := g + 1;
          return Some(g);
        }
        g := g + 1;
      }
      g := 0;
      while g != |db| && g != pos
        invariant g <= pos && Scan(db, imsi, 0, pos) == Scan(db, imsi, g, pos)
        decreases |db| - g
      {
        if db[g].imsi == imsi {
          pos := g + 1;
          return Some(g);
        }
        g := g + 1;
      }
      return None;
    }
  }

  // ----- the subscriber's triplets -----

  /** Positions below n of the subscriber's triplets, in list order. */
  function Own(db: seq<Triplet>, imsi: string, n: nat): seq<nat>
    requires n <= |db|
  {
    if n == 0 then []
    else if db[n - 1].imsi == imsi then Own(db, imsi, n - 1) + [n - 1]
    else Own(db, imsi, n - 1)
  }

  /** They are exactly the positions with the subscriber's triplets, each once and in list order. */
  lemma {:induction false} OwnExactly(db: seq<Triplet>, imsi: string, n: nat)
    requires n <= |db|
    ensures forall i: nat :: i in Own(db, imsi, n) <==> i < n && db[i].imsi == imsi
    ensures forall j, k :: 0 <= j < k < |Own(db, imsi, n)| ==> Own(db, imsi, n)[j] < Own(db, imsi, n)[k]
  {
    if n > 0 {
      OwnExactly(db, imsi, n - 1);
      var before := Own(db, imsi, n - 1);
      assert forall k :: 0 <= k < |before| ==> before[k] in before;
    }
  }

  lemma {:induction false} OwnPrefix(db: seq<Triplet>, imsi: string, m: nat, n: nat)
    requires m <= n <= |db|
    ensures Own(db, imsi, m) <= Own(db, imsi, n)
  {
    if m < n { OwnPrefix(db, imsi, m, n - 1); }
  }

  /** A scan from lo finds the first of the subscriber's triplets not before lo. */
  lemma {:induction false} ScanFinds(db: seq<Triplet>, imsi: string, lo: nat, hi: nat)
    requires lo <= hi <= |db|
    ensures var r, all := |Own(db, imsi, lo)|, Own(db, imsi, hi);
      r <= |all| && Scan(db, imsi, lo, hi) == if r < |all| then Some(all[r]) else None
    decreases hi - lo
  {
    OwnPrefix(db, imsi, lo, hi);
    if lo < hi {
      ScanFinds(db, imsi, lo + 1, hi);
      OwnPrefix(db, imsi, lo + 1, hi);
    }
  }

  /** Which of the subscriber's k triplets is next with the cursor at pos. */
  function Turn(db: seq<Triplet>, imsi: string, pos: nat): nat
    requires pos <= |db|
  {
    var r := |Own(db, imsi, pos)|;
    if r == |Own(db, imsi, |db|)| then 0 else r
  }

  /** A lookup fails exactly when the subscriber has no triplet; otherwise it serves the one whose turn it is. */
  lemma LookupServesTurn(db: seq<Triplet>, imsi: string, pos: nat)
    requires pos <= |db|
    ensures var own, g, t := Own(db, imsi, |db|), Lookup(db, pos, imsi), Turn(db, imsi, pos);
      && (g.None? <==> own == [])
      && (own != [] ==> t < |own| && g == Some(own[t]) && own[t] < |db|
                        && Turn(db, imsi, own[t] + 1) == if t + 1 == |own| then 0 else t + 1)
  {
    var own := Own(db, imsi, |db|);
    ScanFinds(db, imsi, pos, |db|);
    ScanFinds(db, imsi, 0, pos);
    OwnPrefix(db, imsi, pos, |db|);
    if own != [] {
      var t := Turn(db, imsi, pos);
      RankBehind(db, imsi, t, |db|);
    }
  }

  lemma {:induction false} RankBehind(db: seq<Triplet>, imsi: string, t: nat, n: nat)
    requires n <= |db| && t < |Own(db, imsi, n)|
    ensures Own(db, imsi, n)[t] < n && |Own(db, imsi, Own(db, imsi, n)[t] + 1)| == t + 1
  {
    if t < |Own(db, imsi, n - 1)| { RankBehind(db, imsi, t, n - 1); }
  }

  // ----- consecutive lookups -----

  /** What n lookups in a row hand out. */
  function Served(db: seq<Triplet>, imsi: string, pos: nat, n: nat): seq<nat>
    requires pos <= |db|
    decreases n
  {
    if n == 0 then []
    else
      match Lookup(db, pos, imsi)
      case None => []
      case Some(g) => [g] + Served(db, imsi, g + 1, n - 1)
  }

  /** n elements of a list in turn from number t on, starting over at the end. */
  function Rotation(own: seq<nat>, t: nat, n: nat): seq<nat>
    requires t < |own|
    decreases n
  {
    if n == 0 then [] else [own[t]] + Rotation(own, if t + 1 == |own| then 0 else t + 1, n - 1)
  }

  lemma {:induction false} ServedInRotation(db: seq<Triplet>, imsi: string, pos: nat, n: nat)
    requires pos <= |db| && Own(db, imsi, |db|) != []
    ensures Turn(db, imsi, pos) < |Own(db, imsi, |db|)|
    ensures Served(db, imsi, pos, n) == Rotation(Own(db, imsi, |db|), Turn(db, imsi, pos), n)
    decreases n
  {
    LookupServesTurn(db, imsi, pos);
    if n > 0 {
      ServedInRotation(db, imsi, Lookup(db, pos, imsi).value + 1, n - 1);
    }
  }

  lemma {:induction false} RotationStraight(own: seq<nat>, t: nat, n: nat)
    requires t < |own| && t + n <= |own|
    ensures Rotation(own, t, n) == own[t..t + n]
    decreases n
  {
    if n > 0 {
      if n > 1 { RotationStraight(own, t + 1, n - 1); }
      assert own[t..t + n] == [own[t]] + own[t + 1..t + n];
    }
  }

  lemma {:induction false} RotationSplit(own: seq<nat>, t: nat, m: nat, n: nat)
    requires t < |own| && t + m <= |own|
    ensures Rotation(own, t, m + n)
         == Rotation(own, t, m) + Rotation(own, if t + m == |own| then 0 else t + m, n)
    decreases m
  {
    if m == 1 {
      assert Rotation(own, t, 1)
          == [own[t]] + Rotation(own, if t + 1 == |own| then 0 else t + 1, 0);
    } else if m > 1 {
      RotationSplit(own, t + 1, m - 1, n);
    }
  }

  lemma RotationRound(own: seq<nat>, t: nat, n: nat)
    requires t < |own|
    ensures Rotation(own, t, |own| + n) == own[t..] + own[..t] + Rotation(own, t, n)
  {
    var m := |own| - t;
    RotationSplit(own, t, m, t + n);
    RotationStraight(own, t, m);
    RotationSplit(own, 0, t, n);
    RotationStraight(own, 0, t);
    assert own[t..t + m] == own[t..];
  }

  /**
   From any position of the cursor, as many lookups in a row as the subscriber
   has triplets hand out every one of them once, in cyclic list order, and the
   next ones start over.
   */
  lemma RoundRobin(db: seq<Triplet>, imsi: string, pos: nat, n: nat)
    requires pos <= |db| && Own(db, imsi, |db|) != []
    ensures var own, t := Own(db, imsi, |db|), Turn(db, imsi, pos);
      && t < |own|
      && Served(db, imsi, pos, |own|) == own[t..] + own[..t]
      && Served(db, imsi, pos, |own| + n) == Served(db, imsi, pos, |own|) + Served(db, imsi, pos, n)
  {
    var own, t := Own(db, imsi, |db|), Turn(db, imsi, pos);
    ServedInRotation(db, imsi, pos, |own|);
    ServedInRotation(db, imsi, pos, |own| + n);
    ServedInRotation(db, imsi, pos, n);
    RotationRound(own, t, 0);
    RotationRound(own, t, n);
    assert own[t..] + own[..t] + [] == own[t..] + own[..t];
  }
}
