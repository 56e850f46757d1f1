/**
 Byte counters of an accounting session: a driver that reports only the low 32
 bits is polled often enough to extend its counters to 64 bits, and the report
 splits each counter into octets and gigawords (sections 5.1 and 5.2 of RFC 2869).
 */
module Accounting {
  import opened Bytes

  const U32: nat := 0x1_0000_0000
  const U64: nat := 0x1_0000_0000_0000_0000

  type u32 = x: int | 0 <= x < 0x1_0000_0000
  type u64 = x: int | 0 <= x < 0x1_0000_0000_0000_0000

  datatype Counter = Counter(hi: u32, lo: u32) {
    function Value(): nat { hi * U32 + lo }
  }

  /** A smaller value than last time means that the driver's counter has wrapped. */
  function Poll(c: Counter, v: u32): Counter {
    Counter(if c.lo > v then (c.hi + 1) % U32 else c.hi, v)
  }

  /** One poll adds the bytes passed since the last one, modulo 2^32. */
  lemma PollAdds(c: Counter, was: nat, now: nat)
    requires was <= now && c.lo == was % U32
    ensures var r := Poll(c, now % U32);
      r.lo == now % U32 && r.Value() == (c.Value() + (now - was) % U32) % U64
  {
    var d := (now - was) % U32;
    assert now % U32 == (was % U32 + d) % U32;
    assert now % U32 == if c.lo + d < U32 then c.lo + d else c.lo + d - U32;
  }

  /** The counter of a session after polls at which the true totals were ts. */
  function Session(ts: seq<nat>): Counter {
    if ts == [] then Counter(0, 0) else Poll(Session(ts[..|ts| - 1]), ts[|ts| - 1] % U32)
  }

  function Last(ts: seq<nat>): nat {
    if ts == [] then 0 else ts[|ts| - 1]
  }

  /** Totals never fall. */
  predicate Rising(ts: seq<nat>) {
    forall k :: 0 <= k < |ts| ==> Last(ts[..k]) <= ts[k]
  }

  /** Fewer than 2^32 bytes pass between polls. */
  predicate PolledInTime(ts: seq<nat>) {
    forall k :: 0 <= k < |ts| ==> ts[k] - Last(ts[..k]) < U32
  }

  lemma {:induction false} SessionBound(ts: seq<nat>)
    requires Rising(ts) && Last(ts) < U64
    ensures Session(ts).lo == Last(ts) % U32 && Session(ts).Value() <= Last(ts)
    ensures Session(ts).Value() == Last(ts) <==> PolledInTime(ts)
  {
    if ts != [] {
      var n := |ts| - 1;
      var before, was, now := ts[..n], Last(ts[..n]), ts[n];
      AllButLast(ts);
      SessionBound(before);
      PollAdds(Session(before), was, now);
      OnePoll(Session(before).Value(), was, now);
    }
  }

  lemma OnePoll(v: nat, was: nat, now: nat)
    requires v <= was <= now < U64
    ensures (v + (now - was) % U32) % U64 <= now
    ensures (v + (now - was) % U32) % U64 == now <==> v == was && now - was < U32
  {}

  lemma AllButLast(ts: seq<nat>)
    requires ts != []
    ensures var n := |ts| - 1;
      && (Rising(ts) <==> Rising(ts[..n]) && Last(ts[..n]) <= ts[n])
      && (PolledInTime(ts) <==> PolledInTime(ts[..n]) && ts[n] - Last(ts[..n]) < U32)
  {
    assert forall k :: 0 <= k < |ts| - 1 ==> ts[..|ts| - 1][..k] == ts[..k];
  }

  /** The extended counter is the true total after every poll exactly when every poll came in time. */
  lemma ExtensionExactly(ts: seq<nat>)
    requires Rising(ts) && Last(ts) < U64
    ensures (forall n :: 0 <= n <= |ts| ==> Session(ts[..n]).Value() == Last(ts[..n])) <==> PolledInTime(ts)
  {
    assert ts[..|ts|] == ts;
    SessionBound(ts);
    if PolledInTime(ts) {
      forall n | 0 <= n <= |ts| ensures Session(ts[..n]).Value() == Last(ts[..n]) {
        RisingPrefix(ts, n);
        SessionBound(ts[..n]);
      }
    }
  }

  lemma {:induction false} RisingPrefix(ts: seq<nat>, n: nat)
    requires Rising(ts) && n <= |ts|
    ensures Rising(ts[..n]) && Last(ts[..n]) <= Last(ts)
    ensures PolledInTime(ts) ==> PolledInTime(ts[..n])
    decreases |ts| - n
  {
    assert forall k :: 0 <= k < n ==> ts[..n][..k] == ts[..k];
    if n < |ts| {
      RisingPrefix(ts, n + 1);
      assert Last(ts[..n + 1]) == ts[n];
    } else {
      assert ts[..n] == ts;
    }
  }

  // ----- the station -----

  datatype StaData = StaData(rxBytes: u64, txBytes: u64, bytes64bit: bool)

  datatype Octets = Octets(octets: u32, gigawords: u32)

  function Split(bytes: u64): (r: Octets)
    ensures r.gigawords * U32 + r.octets == bytes
  {
    Octets(bytes % U32, bytes / U32 % U32)
  }

  class StaInfo {
    var lastRxBytesHi: u32
    var lastRxBytesLo: u32
    var lastTxBytesHi: u32
    var lastTxBytesLo: u32

    function Rx(): Counter reads this { Counter(lastRxBytesHi, lastRxBytesLo) }

    function Tx(): Counter reads this { Counter(lastTxBytesHi, lastTxBytesLo) }

    /** accounting_sta_start: both counters start a session at zero. */
    method Start()
      modifies this
      ensures Rx() == Session([]) && Tx() == Session([])
    {
      lastRxBytesHi, lastRxBytesLo := 0, 0;
      lastTxBytesHi, lastTxBytesLo := 0, 0;
    }

    /** data is what the driver reported, if it did. */
    method UpdateStats(data: Option<StaData>) returns (ok: bool)
      requires data.Some? && !data.value.bytes64bit ==> data.value.rxBytes < U32 && data.value.txBytes < U32
      modifies this
      ensures ok == data.Some?
      ensures if ok && !data.value.bytes64bit
              then Rx() == Poll(old(Rx()), data.value.rxBytes) && Tx() == Poll(old(Tx()), data.value.txBytes)
              else Rx() == old(Rx()) && Tx() == old(Tx())
    {
      if data.None? {
        return false;
      }
      var d := data.value;
      if !d.bytes64bit {
        if lastRxBytesLo > d.rxBytes {
          lastRxBytesHi := (lastRxBytesHi + 1) % U32;
        }
        lastRxBytesLo := d.rxBytes;
        if lastTxBytesLo > d.txBytes {
          lastTxBytesHi := (lastTxBytesHi + 1) % U32;
        }
        lastTxBytesLo := d.txBytes;
      }
      return true;
    }

    /**
     The counters of an interim or final report, for true totals rx and tx and
     earlier polls at totals rxs and txs. A driver with 32-bit counters reports
     their low 32 bits, one with 64-bit counters the totals.
     */
    method Report(data: StaData, ghost rxs: seq<nat>, ghost txs: seq<nat>, ghost rx: nat, ghost tx: nat)
      returns (input: Octets, output: Octets)
      requires Rising(rxs + [rx]) && rx < U64 && Rising(txs + [tx]) && tx < U64
      requires if data.bytes64bit then data.rxBytes == rx && data.txBytes == tx
               else data.rxBytes == rx % U32 && data.txBytes == tx % U32
      requires !data.bytes64bit ==> Rx() == Session(rxs) && Tx() == Session(txs)
      modifies this
      ensures !data.bytes64bit ==> Rx() == Session(rxs + [rx]) && Tx() == Session(txs + [tx])
      ensures input.gigawords * U32 + input.octets == rx <==> data.bytes64bit || PolledInTime(rxs + [rx])
      ensures output.gigawords * U32 + output.octets == tx <==> data.bytes64bit || PolledInTime(txs + [tx])
    {
      var ok := UpdateStats(Some(data));
      assert (rxs + [rx])[..|rxs|] == rxs && (txs + [tx])[..|txs|] == txs;
      SessionBound(rxs + [rx]);
      SessionBound(txs + [tx]);
      var bytes := if data.bytes64bit then data.rxBytes else lastRxBytesHi * U32 + lastRxBytesLo;
      input := Split(bytes);
      bytes := if data.bytes64bit then data.txBytes else lastTxBytesHi * U32 + lastTxBytesLo;
      output := Split(bytes);
    }
  }
}
