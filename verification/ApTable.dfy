/**
 The table of neighbouring access points as a value: one record per address,
 most recently heard first, with the two protection flags derived from it.
 */
module ApTable {
  import opened Bytes

  // ----- time -----

  datatype Time = Time(sec: int, usec: int) {
    predicate Valid() { 0 <= usec < 1_000_000 }

    function Micros(): int { sec * 1_000_000 + usec }

    predicate AtMost(other: Time) { Micros() <= other.Micros() }
  }

  /** os_reltime_expired */
  predicate Expired(now: Time, ts: Time, timeout: int) {
    var sec, usec := now.sec - ts.sec, now.usec - ts.usec;
    var age := if usec < 0 then Time(sec - 1, usec + 1_000_000) else Time(sec, usec);
    age.sec > timeout || (age.sec == timeout && age.usec > 0)
  }

  lemma ExpiredMeansOlder(now: Time, ts: Time, timeout: int)
    requires now.Valid() && ts.Valid()
    ensures Expired(now, ts, timeout) <==> now.Micros() - ts.Micros() > timeout * 1_000_000
  {}

  // ----- records -----

  const RATES: nat := 32

  datatype Ap = Ap(addr: Addr, rates: seq<byte>, erp: Option<byte>, channel: int, ht: bool, lastBeacon: Time)

  /** The fields of a received beacon the table looks at; rx is the channel it was received on. */
  datatype Beacon = Beacon(bssid: Addr, supp: seq<byte>, ext: seq<byte>, erp: Option<byte>,
                           ds: Option<byte>, htOper: Option<byte>, rx: Option<int>, ht: bool)

  datatype Conf = Conf(maxSize: int, expiration: int, modeG: bool, channel: int, secondary: int)

  /** merge_byte_arrays into a zeroed array of 32 rates */
  function MergeRates(supp: seq<byte>, ext: seq<byte>): (r: seq<byte>)
    ensures |r| == RATES
  {
    var all := supp + ext;
    if |all| >= RATES then all[..RATES] else all + seq(RATES - |all|, _ => 0)
  }

  /** os_zalloc followed by copying the address */
  function Blank(addr: Addr): Ap {
    Ap(addr, seq(RATES, _ => 0), Some(0), 0, false, Time(0, 0))
  }

  function Refresh(ap: Ap, b: Beacon, now: Time): Ap {
    Ap(ap.addr, MergeRates(b.supp, b.ext), b.erp,
       if b.ds.Some? then b.ds.value as int
       else if b.htOper.Some? then b.htOper.value as int
       else if b.rx.Some? then b.rx.value else ap.channel,
       b.ht, now)
  }

  predicate SlowRate(r: byte) {
    var rate := (r % 128) * 5;
    !(rate == 60 || rate == 90 || rate > 110)
  }

  /** ap_list_beacon_olbc */
  predicate TriggersOlbc(c: Conf, ap: Ap) {
    && c.modeG && c.channel == ap.channel
    && ((ap.erp.Some? && ap.erp.value % 2 == 1) || forall i :: 0 <= i < |ap.rates| ==> SlowRate(ap.rates[i]))
  }

  /** A non-HT access point on our primary or secondary channel, or on no known channel. */
  predicate TriggersOlbcHt(c: Conf, ap: Ap) {
    !ap.ht && (ap.channel == 0 || ap.channel == c.channel || ap.channel == c.channel + c.secondary * 4)
  }

  // ----- table -----

  type Table = seq<Ap>

  predicate Has(t: Table, addr: Addr) {
    exists i :: 0 <= i < |t| && t[i].addr == addr
  }

  predicate Unique(t: Table) {
    forall i, j :: 0 <= i < j < |t| ==> t[i].addr != t[j].addr
  }

  function Find(t: Table, addr: Addr): Option<Ap> {
    if t == [] then None else if t[0].addr == addr then Some(t[0]) else Find(t[1..], addr)
  }

  function Without(t: Table, addr: Addr): Table {
    if t == [] then [] else if t[0].addr == addr then t[1..] else [t[0]] + Without(t[1..], addr)
  }

  /** A beacon moves its sender to the front; a new sender may push out the last record. */
  function Heard(c: Conf, t: Table, b: Beacon, now: Time): Table {
    match Find(t, b.bssid)
    case Some(ap) => [Refresh(ap, b, now)] + Without(t, b.bssid)
    case None =>
      var grown := [Refresh(Blank(b.bssid), b, now)] + t;
      if |grown| > c.maxSize && |grown| > 1 then grown[..|grown| - 1] else grown
  }

  /** The timer's loop: drop records from the tail until a live one is met. */
  function DropExpired(c: Conf, t: Table, now: Time): Table {
    if t == [] || !Expired(now, t[|t| - 1].lastBeacon, c.expiration) then t
    else DropExpired(c, t[..|t| - 1], now)
  }

  datatype State = State(table: Table, olbc: bool, olbcHt: bool)

  const EMPTY: State := State([], false, false)

  function BeaconStep(c: Conf, s: State, b: Beacon, now: Time): State {
    if c.maxSize < 1 then s
    else
      var t := Heard(c, s.table, b, now);
      State(t, s.olbc || TriggersOlbc(c, t[0]), s.olbcHt || TriggersOlbcHt(c, t[0]))
  }

  predicate SomeOlbc(c: Conf, t: Table) {
    exists i :: 0 <= i < |t| && TriggersOlbc(c, t[i])
  }

  predicate SomeOlbcHt(c: Conf, t: Table) {
    exists i :: 0 <= i < |t| && TriggersOlbcHt(c, t[i])
  }

  predicate SomeLegacy(t: Table) {
    exists i :: 0 <= i < |t| && !t[i].ht
  }

  function TickStep(c: Conf, s: State, now: Time): State {
    if s.table == [] then s
    else
      var t := DropExpired(c, s.table, now);
      State(t, s.olbc && SomeOlbc(c, t), s.olbcHt && SomeLegacy(t))
  }

  datatype Event = BeaconHeard(b: Beacon, at: Time) | Tick(at: Time)

  function Step(c: Conf, s: State, e: Event): State {
    match e
    case BeaconHeard(b, at) => BeaconStep(c, s, b, at)
    case Tick(at) => TickStep(c, s, at)
  }

  /** State after the events, given oldest first. */
  function Run(c: Conf, es: seq<Event>): State {
    if es == [] then EMPTY else Step(c, Run(c, es[..|es| - 1]), es[|es| - 1])
  }

  /** The clock never runs backwards. */
  predicate Monotone(es: seq<Event>) {
    && (forall i :: 0 <= i < |es| ==> es[i].at.Valid())
    && forall i, j :: 0 <= i < j < |es| ==> es[i].at.AtMost(es[j].at)
  }

  // ----- invariant -----

  predicate Sorted(t: Table) {
    forall i, j :: 0 <= i < j < |t| ==> t[j].lastBeacon.AtMost(t[i].lastBeacon)
  }

  predicate HeardBy(t: Table, now: Time) {
    forall i :: 0 <= i < |t| ==> t[i].lastBeacon.Valid() && t[i].lastBeacon.AtMost(now)
  }

  predicate FlagsSound(c: Conf, s: State) {
    && (SomeOlbc(c, s.table) ==> s.olbc)
    && (SomeOlbcHt(c, s.table) ==> s.olbcHt)
    && (s.table == [] ==> !s.olbc && !s.olbcHt)
  }

  predicate Inv(c: Conf, s: State) {
    && Unique(s.table) && Sorted(s.table)
    && (|s.table| <= c.maxSize || s.table == [])
    && FlagsSound(c, s)
  }

  lemma {:induction false} FindHas(t: Table, addr: Addr)
    ensures Find(t, addr).Some? <==> Has(t, addr)
    ensures Find(t, addr).Some? ==> exists i :: 0 <= i < |t| && t[i] == Find(t, addr).value && t[i].addr == addr
  {
    if t != [] {
      FindHas(t[1..], addr);
      if t[0].addr != addr {
        if Find(t[1..], addr).Some? {
          var i :| 0 <= i < |t[1..]| && t[1..][i] == Find(t[1..], addr).value && t[1..][i].addr == addr;
          assert t[i + 1].addr == addr && t[i + 1] == Find(t, addr).value;
        }
        if Has(t, addr) {
          var i :| 0 <= i < |t| && t[i].addr == addr;
          assert t[1..][i - 1].addr == addr;
        }
      } else {
        assert t[0] == Find(t, addr).value;
      }
    }
  }

  lemma CutOut(t: Table, i: nat)
    requires 1 <= i < |t|
    ensures [t[0]] + (t[1..][..i - 1] + t[1..][i..]) == t[..i] + t[i + 1..]
  {}

  /** Without drops exactly the record at one position. */
  lemma {:induction false} WithoutAt(t: Table, i: nat)
    requires Unique(t) && i < |t|
    ensures Find(t, t[i].addr) == Some(t[i])
    ensures Without(t, t[i].addr) == t[..i] + t[i + 1..]
  {
    if i == 0 {
      assert t[..0] + t[1..] == t[1..];
    } else {
      var rest := t[1..];
      assert rest[i - 1] == t[i];
      WithoutAt(rest, i - 1);
      CutOut(t, i);
    }
  }

  /** The record at position i replaced by x and moved to the front. */
  function MovedToFront(x: Ap, t: Table, i: nat): Table
    requires i < |t|
  {
    [x] + t[..i] + t[i + 1..]
  }

  /** x put in front, and the last record pushed out if the table would outgrow max. */
  function PushedOnto(x: Ap, t: Table, max: int): Table {
    if |t| + 1 > max && t != [] then [x] + t[..|t| - 1] else [x] + t
  }

  /** Heard either moves the sender's record or, for a new sender, pushes one. */
  lemma HeardCases(c: Conf, t: Table, b: Beacon, now: Time) returns (i: nat)
    requires Unique(t)
    ensures i <= |t|
    ensures i < |t| ==> (t[i].addr == b.bssid && Heard(c, t, b, now) == MovedToFront(Refresh(t[i], b, now), t, i))
    ensures i == |t| ==>
              (!Has(t, b.bssid) && Heard(c, t, b, now) == PushedOnto(Refresh(Blank(b.bssid), b, now), t, c.maxSize))
  {
    FindHas(t, b.bssid);
    if Has(t, b.bssid) {
      i :| 0 <= i < |t| && t[i].addr == b.bssid;
      WithoutAt(t, i);
      var x := Refresh(t[i], b, now);
      assert [x] + t[..i] + t[i + 1..] == [x] + (t[..i] + t[i + 1..]);
    } else {
      i := |t|;
    }
  }

  // ----- the flags, from the beacon itself -----

  /** The channel a beacon puts its sender on: as it says itself, else where it was received, else as before. */
  predicate HeardOn(t: Table, b: Beacon, ch: int) {
    if b.ds.Some? then ch == b.ds.value as int
    else if b.htOper.Some? then ch == b.htOper.value as int
    else if b.rx.Some? then ch == b.rx.value
    else if Has(t, b.bssid) then exists i :: 0 <= i < |t| && t[i].addr == b.bssid && t[i].channel == ch
    else ch == 0
  }

  /** The first 32, in units of 500 kbit/s as in the rates element: at most 11 Mbit/s, and not one of the OFDM rates below that. */
  predicate NoOfdm(rates: seq<byte>) {
    forall i :: 0 <= i < |rates| && i < 32 ==> var r := rates[i] % 128; r <= 22 && r != 12 && r != 18
  }

  lemma SlowRatesMerged(supp: seq<byte>, ext: seq<byte>)
    ensures (forall i :: 0 <= i < RATES ==> SlowRate(MergeRates(supp, ext)[i])) <==> NoOfdm(supp + ext)
  {
    var all, merged := supp + ext, MergeRates(supp, ext);
    assert forall i :: 0 <= i < |all| && i < RATES ==> merged[i] == all[i];
    assert forall i :: |all| <= i < RATES ==> SlowRate(merged[i]);
    if NoOfdm(all) {
      forall i | 0 <= i < RATES ensures SlowRate(merged[i]) {}
    } else {
      var i :| 0 <= i < |all| && i < RATES && !(var r := all[i] % 128; r <= 22 && r != 12 && r != 18);
      assert !SlowRate(merged[i]);
    }
  }

  /** A beacon raises a flag exactly when its own fields and the channel it is heard on say so. */
  lemma BeaconRaises(c: Conf, s: State, b: Beacon, now: Time, ch: int)
    requires Unique(s.table) && c.maxSize >= 1 && HeardOn(s.table, b, ch)
    ensures var after := BeaconStep(c, s, b, now);
            var noErp := (b.erp.Some? && b.erp.value % 2 == 1) || NoOfdm(b.supp + b.ext);
      && (after.olbc <==> (s.olbc || (c.modeG && ch == c.channel && noErp)))
      && (after.olbcHt <==> (s.olbcHt || (!b.ht && ch in {0, c.channel, c.channel + 4 * c.secondary})))
  {
    var i := HeardCases(c, s.table, b, now);
    SlowRatesMerged(b.supp, b.ext);
    if i < |s.table| && b.ds == None && b.htOper == None && b.rx == None {
      var k :| 0 <= k < |s.table| && s.table[k].addr == b.bssid && s.table[k].channel == ch;
      assert k == i;
    }
    assert BeaconStep(c, s, b, now).table[0].rates == MergeRates(b.supp, b.ext);
  }

  const B_RATES: set<byte> := {2, 4, 11, 22}
  const OFDM_RATES: set<byte> := {12, 18, 24, 36, 48, 72, 96, 108}

  /** Of the rates 802.11b and g know, the first four are those of 802.11b: no OFDM means an access point without ERP. */
  lemma OnlyBRates(rates: seq<byte>)
    requires |rates| <= 32 && forall i :: 0 <= i < |rates| ==> rates[i] % 128 in B_RATES + OFDM_RATES
    ensures NoOfdm(rates) <==> forall i :: 0 <= i < |rates| ==> rates[i] % 128 in B_RATES
  {
    forall i | 0 <= i < |rates|
      ensures rates[i] % 128 in B_RATES <==> (var r := rates[i] % 128; r <= 22 && r != 12 && r != 18)
    {}
  }

  predicate Ordered(t: Table, now: Time) {
    Unique(t) && Sorted(t) && HeardBy(t, now)
  }

  lemma MovedAt(x: Ap, t: Table, i: nat, k: nat)
    requires i < |t| && 1 <= k < |t|
    ensures MovedToFront(x, t, i)[k] == (if k <= i then t[k - 1] else t[k]) && MovedToFront(x, t, i)[k] in t
  {}

  lemma MovedUnique(x: Ap, t: Table, i: nat)
    requires i < |t| && Unique(t) && x.addr == t[i].addr
    ensures Unique(MovedToFront(x, t, i))
  {
    var r := MovedToFront(x, t, i);
    forall j, k | 0 <= j < k < |r| ensures r[j].addr != r[k].addr {
      MovedAt(x, t, i, k);
      if j > 0 { MovedAt(x, t, i, j); }
    }
  }

  lemma MovedKeeps(x: Ap, t: Table, i: nat, now: Time)
    requires i < |t| && Ordered(t, now) && now.Valid() && x.addr == t[i].addr && x.lastBeacon == now
    ensures Ordered(MovedToFront(x, t, i), now)
    ensures forall k :: 1 <= k < |t| ==> MovedToFront(x, t, i)[k] in t
  {
    var r := MovedToFront(x, t, i);
    MovedUnique(x, t, i);
    forall k | 1 <= k < |t| ensures r[k] == (if k <= i then t[k - 1] else t[k]) && r[k] in t {
      MovedAt(x, t, i, k);
    }
  }

  lemma PushedKeeps(x: Ap, t: Table, max: int, now: Time)
    requires Ordered(t, now) && now.Valid() && !Has(t, x.addr) && x.lastBeacon == now
    ensures Ordered(PushedOnto(x, t, max), now)
    ensures forall k :: 1 <= k < |PushedOnto(x, t, max)| ==> PushedOnto(x, t, max)[k] in t
  {
    var r := PushedOnto(x, t, max);
    assert forall k :: 1 <= k < |r| ==> r[k] == t[k - 1];
    forall j | 0 < j < |r| ensures r[0].addr != r[j].addr {
      assert t[j - 1].addr == r[j].addr;
    }
  }

  lemma HeardKeeps(c: Conf, t: Table, b: Beacon, now: Time)
    requires Ordered(t, now) && now.Valid() && c.maxSize >= 1
    requires |t| <= c.maxSize || t == []
    ensures var r := Heard(c, t, b, now);
      && r != [] && Ordered(r, now) && |r| <= c.maxSize && r[0].addr == b.bssid && r[0].lastBeacon == now
      && forall k :: 1 <= k < |r| ==> r[k] in t
  {
    var i := HeardCases(c, t, b, now);
    if i < |t| {
      MovedKeeps(Refresh(t[i], b, now), t, i, now);
    } else {
      PushedKeeps(Refresh(Blank(b.bssid), b, now), t, c.maxSize, now);
    }
  }

  lemma {:induction false} DropExpiredPrefix(c: Conf, t: Table, now: Time)
    ensures |DropExpired(c, t, now)| <= |t| && DropExpired(c, t, now) == t[..|DropExpired(c, t, now)|]
  {
    if t != [] && Expired(now, t[|t| - 1].lastBeacon, c.expiration) {
      DropExpiredPrefix(c, t[..|t| - 1], now);
    }
  }

  function LiveOnly(c: Conf, t: Table, now: Time): Table {
    if t == [] then []
    else
      var rest := LiveOnly(c, t[..|t| - 1], now);
      if Expired(now, t[|t| - 1].lastBeacon, c.expiration) then rest else rest + [t[|t| - 1]]
  }

  lemma {:induction false} AllLive(c: Conf, t: Table, now: Time)
    requires forall i :: 0 <= i < |t| ==> !Expired(now, t[i].lastBeacon, c.expiration)
    ensures LiveOnly(c, t, now) == t
  {
    if t != [] {
      AllLive(c, t[..|t| - 1], now);
    }
  }

  /** Stopping at the first live record from the tail removes exactly the expired ones. */
  lemma {:induction false} ExpiryIsExact(c: Conf, t: Table, now: Time)
    requires Sorted(t) && HeardBy(t, now) && now.Valid()
    ensures DropExpired(c, t, now) == LiveOnly(c, t, now)
    ensures forall ap :: ap in DropExpired(c, t, now) <==> ap in t && !Expired(now, ap.lastBeacon, c.expiration)
  {
    if t != [] {
      var last := t[|t| - 1];
      if Expired(now, last.lastBeacon, c.expiration) {
        ExpiryIsExact(c, t[..|t| - 1], now);
        assert t == t[..|t| - 1] + [last];
      } else {
        ExpiredMeansOlder(now, last.lastBeacon, c.expiration);
        forall i | 0 <= i < |t| ensures !Expired(now, t[i].lastBeacon, c.expiration) {
          ExpiredMeansOlder(now, t[i].lastBeacon, c.expiration);
        }
        AllLive(c, t, now);
      }
    }
  }

  lemma StepKeepsInv(c: Conf, s: State, e: Event)
    requires Inv(c, s) && HeardBy(s.table, e.at) && e.at.Valid()
    ensures Inv(c, Step(c, s, e)) && HeardBy(Step(c, s, e).table, e.at)
  {
    match e
    case BeaconHeard(b, at) =>
      if c.maxSize >= 1 {
        HeardKeeps(c, s.table, b, at);
        var r := Step(c, s, e).table;
        forall k | 1 <= k < |r| ensures exists i :: 0 <= i < |s.table| && s.table[i] == r[k] {
          assert r[k] in s.table;
        }
      }
    case Tick(at) =>
      DropExpiredPrefix(c, s.table, at);
  }

  /** After any run the table is in order, has no duplicates, fits, and the flags cover it. */
  lemma {:induction false} RunKeepsInv(c: Conf, es: seq<Event>, now: Time)
    requires Monotone(es) && now.Valid() && forall i :: 0 <= i < |es| ==> es[i].at.AtMost(now)
    ensures Inv(c, Run(c, es)) && HeardBy(Run(c, es).table, now)
  {
    if es != [] {
      var n := |es| - 1;
      RunKeepsInv(c, es[..n], es[n].at);
      StepKeepsInv(c, Run(c, es[..n]), es[n]);
    }
  }

  /**
   Right after a tick the OLBC flag is exactly "some listed access point
   triggers it", and the listed access points are exactly the live ones.
   */
  lemma TickIsExact(c: Conf, es: seq<Event>, now: Time)
    requires Monotone(es + [Tick(now)])
    ensures var before, after := Run(c, es), Run(c, es + [Tick(now)]);
      && after.table == LiveOnly(c, before.table, now)
      && (after.olbc <==> SomeOlbc(c, after.table))
      && (after.olbcHt <==> before.olbcHt && SomeLegacy(after.table))
  {
    var all := es + [Tick(now)];
    assert all[|es|] == Tick(now) && all[..|es|] == es;
    forall i | 0 <= i < |es| ensures es[i].at.AtMost(now) && es[i].at.Valid() {
      assert all[i] == es[i];
    }
    assert Monotone(es) by {
      forall i, j | 0 <= i < j < |es| ensures es[i].at.AtMost(es[j].at) {
        assert all[i] == es[i] && all[j] == es[j];
      }
    }
    RunKeepsInv(c, es, now);
    ExpiryIsExact(c, Run(c, es).table, now);
    var t := Run(c, es).table;
    DropExpiredPrefix(c, t, now);
    assert SomeOlbc(c, DropExpired(c, t, now)) ==> SomeOlbc(c, t);
  }

  /**
   The HT flag is right after a tick, that is, set exactly when a listed access
   point triggers it, exactly when it was clear before, or no live access point
   lacks HT, or a live one triggers it.
   */
  lemma HtFlagRightExactly(c: Conf, es: seq<Event>, now: Time)
    requires Monotone(es + [Tick(now)])
    ensures var before, after := Run(c, es), Run(c, es + [Tick(now)]);
            var live := LiveOnly(c, before.table, now);
      (after.olbcHt <==> SomeOlbcHt(c, after.table))
      <==> (before.olbcHt && SomeLegacy(live) ==> SomeOlbcHt(c, live))
  {
    TickIsExact(c, es, now);
    var all := es + [Tick(now)];
    assert all[|es|] == Tick(now);
    RunKeepsInv(c, all, now);
  }

  /** The flag is right for every table in which legacy access points are on our channels or unknown ones. */
  lemma HtFlagRightOnOurChannels(c: Conf, es: seq<Event>, now: Time)
    requires Monotone(es + [Tick(now)])
    requires forall ap :: ap in Run(c, es).table && !ap.ht ==> TriggersOlbcHt(c, ap)
    ensures var after := Run(c, es + [Tick(now)]);
      after.olbcHt <==> SomeOlbcHt(c, after.table)
  {
    HtFlagRightExactly(c, es, now);
    var live := LiveOnly(c, Run(c, es).table, now);
    LiveMembers(c, Run(c, es).table, now);
    if SomeLegacy(live) {
      var i :| 0 <= i < |live| && !live[i].ht;
      assert live[i] in live;
    }
  }

  lemma {:induction false} LiveMembers(c: Conf, t: Table, now: Time)
    ensures forall ap :: ap in LiveOnly(c, t, now) ==> ap in t
  {
    if t != [] {
      LiveMembers(c, t[..|t| - 1], now);
      assert t == t[..|t| - 1] + [t[|t| - 1]];
    }
  }

  // ----- the HT flag over a run -----

  /** Event number k is a beacon whose sender then triggers the HT flag. */
  predicate RaisesHt(c: Conf, es: seq<Event>, k: nat)
    requires k < |es|
  {
    && es[k].BeaconHeard? && c.maxSize >= 1
    && Run(c, es[..k + 1]).table != [] && TriggersOlbcHt(c, Run(c, es[..k + 1]).table[0])
  }

  /** Every tick after event number k leaves some access point without HT. */
  predicate LegacyEverSince(c: Conf, es: seq<Event>, k: nat) {
    forall j :: k < j < |es| && es[j].Tick? ==> SomeLegacy(Run(c, es[..j + 1]).table)
  }

  lemma {:induction false} EmptyIsClear(c: Conf, es: seq<Event>)
    ensures Run(c, es).table == [] ==> !Run(c, es).olbcHt
  {
    if es != [] { EmptyIsClear(c, es[..|es| - 1]); }
  }

  lemma PrefixKept(pre: seq<Event>, e: Event, j: nat)
    requires j < |pre|
    ensures (pre + [e])[j] == pre[j] && (pre + [e])[..j + 1] == pre[..j + 1]
  {}

  lemma SinceStep(c: Conf, pre: seq<Event>, e: Event, k: nat)
    requires k < |pre|
    ensures var es := pre + [e];
      && (RaisesHt(c, es, k) <==> RaisesHt(c, pre, k))
      && (LegacyEverSince(c, es, k) <==>
            LegacyEverSince(c, pre, k) && (e.Tick? ==> SomeLegacy(Run(c, es).table)))
  {
    var es := pre + [e];
    assert es[..|es|] == es && es[|pre|] == e;
    PrefixKept(pre, e, k);
    forall j | k < j < |pre|
      ensures es[j] == pre[j]
      ensures SomeLegacy(Run(c, es[..j + 1]).table) == SomeLegacy(Run(c, pre[..j + 1]).table)
    {
      PrefixKept(pre, e, j);
    }
  }

  /**
   At every moment of every run the HT flag is set exactly when some earlier
   beacon triggered it and every tick since then left an access point without HT.
   */
  lemma {:induction false} HtFlagHistory(c: Conf, es: seq<Event>)
    ensures Run(c, es).olbcHt <==> exists k :: 0 <= k < |es| && RaisesHt(c, es, k) && LegacyEverSince(c, es, k)
  {
    if es != [] {
      var n := |es| - 1;
      var pre, e := es[..n], es[n];
      assert es == pre + [e] && es[..n + 1] == es;
      HtFlagHistory(c, pre);
      EmptyIsClear(c, pre);
      forall k | 0 <= k < n
        ensures RaisesHt(c, es, k) && LegacyEverSince(c, es, k) <==>
                RaisesHt(c, pre, k) && LegacyEverSince(c, pre, k) && (e.Tick? ==> SomeLegacy(Run(c, es).table))
      {
        SinceStep(c, pre, e, k);
      }
      if e.BeaconHeard? {
        assert LegacyEverSince(c, es, n);
        assert RaisesHt(c, es, n) <==> c.maxSize >= 1 && TriggersOlbcHt(c, Run(c, es).table[0]);
      }
    }
  }

  lemma RunNext(c: Conf, es: seq<Event>, e: Event)
    ensures Run(c, es + [e]) == Step(c, Run(c, es), e)
  {
    assert (es + [e])[..|es|] == es;
  }

  lemma RunOfThree(c: Conf, e1: Event, e2: Event, e3: Event)
    ensures Run(c, [e1, e2, e3]) == Step(c, Step(c, Step(c, EMPTY, e1), e2), e3)
  {
    RunNext(c, [], e1);
    RunNext(c, [e1], e2);
    RunNext(c, [e1, e2], e3);
    assert [] + [e1] == [e1] && [e1] + [e2] == [e1, e2] && [e1, e2] + [e3] == [e1, e2, e3];
  }

  /** A non-HT access point that is heard on our channel, and then on another one, is still listed at the next tick. */
  lemma Lingers(c: Conf, near: Beacon, far: Beacon, t1: Time, t2: Time, t3: Time)
    requires c.maxSize >= 1 && near.bssid == far.bssid && !near.ht && !far.ht
    requires near.ds.Some? && near.ds.value as int == c.channel
    requires far.ds.Some? && far.ds.value as int !in {0, c.channel, c.channel + c.secondary * 4}
    requires !Expired(t3, t2, c.expiration)
    ensures var s := Run(c, [BeaconHeard(near, t1), BeaconHeard(far, t2), Tick(t3)]);
      s.olbcHt && |s.table| == 1 && !SomeOlbcHt(c, s.table)
  {
    RunOfThree(c, BeaconHeard(near, t1), BeaconHeard(far, t2), Tick(t3));
    var x := Refresh(Blank(near.bssid), near, t1);
    var y := Refresh(x, far, t2);
    assert Heard(c, [], near, t1) == [x] && TriggersOlbcHt(c, x);
    assert Heard(c, [x], far, t2) == [y] && !y.ht && !TriggersOlbcHt(c, y);
    assert DropExpired(c, [y], t3) == [y];
    assert !([y][0].ht) && SomeLegacy([y]);
  }

  function LegacyBeacon(channel: byte): Beacon {
    Beacon([2, 0, 0, 0, 0, 1], [], [], None, Some(channel), None, None, false)
  }

  /**
   The HT flag is weaker: the tick keeps it while any listed access point is
   not HT. One that was heard on our channel and has moved to another one
   leaves it set although it no longer triggers it.
   */
  lemma HtFlagCanLinger()
    ensures var c := Conf(255, 60, true, 1, 0);
      var es := [BeaconHeard(LegacyBeacon(1), Time(0, 0)), BeaconHeard(LegacyBeacon(11), Time(1, 0)), Tick(Time(2, 0))];
      Monotone(es) && Run(c, es).olbcHt && Run(c, es).table != [] && !SomeOlbcHt(c, Run(c, es).table)
  {
    Lingers(Conf(255, 60, true, 1, 0), LegacyBeacon(1), LegacyBeacon(11), Time(0, 0), Time(1, 0), Time(2, 0));
  }

  // ----- recency -----

  predicate SameKey(x: Ap, y: Ap) {
    x.addr == y.addr && x.lastBeacon == y.lastBeacon
  }

  /** capped holds the first maxSize entries of full, as far as address and time last heard go. */
  predicate IsTop(c: Conf, capped: Table, full: Table) {
    && |capped| == (if |full| <= c.maxSize then |full| else c.maxSize)
    && forall i :: 0 <= i < |capped| ==> SameKey(capped[i], full[i])
  }

  lemma HeardTop(c: Conf, d: Conf, capped: Table, full: Table, b: Beacon, now: Time)
    requires c.maxSize >= 1 && Unique(capped) && Unique(full) && IsTop(c, capped, full)
    requires d.maxSize > |full| + 1
    ensures IsTop(c, Heard(c, capped, b, now), Heard(d, full, b, now))
  {
    var i := HeardCases(c, capped, b, now);
    var j := HeardCases(d, full, b, now);
    if i < |capped| {
      assert full[i].addr == b.bssid;
      assert i == j;
      MovedTop(c, Refresh(capped[i], b, now), Refresh(full[i], b, now), capped, full, i);
    } else {
      assert Has(capped, b.bssid) || |capped| <= j;
      PushedTop(c, Refresh(Blank(b.bssid), b, now),
                if j < |full| then Refresh(full[j], b, now) else Refresh(Blank(b.bssid), b, now), capped, full, j);
    }
  }

  lemma MovedTop(c: Conf, x: Ap, y: Ap, capped: Table, full: Table, i: nat)
    requires c.maxSize >= 1 && IsTop(c, capped, full) && i < |capped| && SameKey(x, y)
    ensures IsTop(c, MovedToFront(x, capped, i), MovedToFront(y, full, i))
  {
    var r, s := MovedToFront(x, capped, i), MovedToFront(y, full, i);
    forall k | 1 <= k < |capped| ensures SameKey(r[k], s[k]) {
      MovedAt(x, capped, i, k);
      MovedAt(y, full, i, k);
    }
  }

  lemma PushedTop(c: Conf, x: Ap, y: Ap, capped: Table, full: Table, j: nat)
    requires c.maxSize >= 1 && IsTop(c, capped, full) && |capped| <= j <= |full| && SameKey(x, y)
    ensures IsTop(c, PushedOnto(x, capped, c.maxSize),
                  if j < |full| then MovedToFront(y, full, j) else PushedOnto(y, full, |full| + 1))
  {
    var r := PushedOnto(x, capped, c.maxSize);
    if j < |full| {
      var s := MovedToFront(y, full, j);
      forall k | 1 <= k < |r| ensures SameKey(r[k], s[k]) {
        assert r[k] == capped[k - 1];
        MovedAt(y, full, j, k);
      }
    } else {
      assert PushedOnto(y, full, |full| + 1) == [y] + full;
      assert forall k :: 1 <= k < |r| ==> r[k] == capped[k - 1];
    }
  }

  lemma {:induction false} FullSize(d: Conf, es: seq<Event>)
    ensures |Run(d, es).table| <= |es|
  {
    if es != [] {
      var n := |es| - 1;
      FullSize(d, es[..n]);
      var t := Run(d, es[..n]).table;
      match es[n] {
        case BeaconHeard(b, at) =>
          FindHas(t, b.bssid);
          if Has(t, b.bssid) { WithoutShrinks(t, b.bssid); }
        case Tick(at) => DropExpiredPrefix(d, t, at);
      }
    }
  }

  lemma {:induction false} WithoutShrinks(t: Table, addr: Addr)
    requires Has(t, addr)
    ensures |Without(t, addr)| < |t|
  {
    if t[0].addr != addr {
      var i :| 0 <= i < |t| && t[i].addr == addr;
      assert t[1..][i - 1].addr == addr;
      WithoutShrinks(t[1..], addr);
    }
  }

  lemma {:induction false} DropTop(c: Conf, d: Conf, capped: Table, full: Table, now: Time)
    requires IsTop(c, capped, full) && c.maxSize >= 1 && c.expiration == d.expiration
    requires Sorted(full) && HeardBy(full, now) && now.Valid()
    ensures IsTop(c, DropExpired(c, capped, now), DropExpired(d, full, now))
    decreases |full|
  {
    if full != [] && Expired(now, full[|full| - 1].lastBeacon, c.expiration) {
      var shorter := full[..|full| - 1];
      if |capped| == |full| {
        DropTop(c, d, capped[..|capped| - 1], shorter, now);
      } else {
        DropTop(c, d, capped, shorter, now);
      }
    } else if full != [] {
      ExpiredMeansOlder(now, full[|full| - 1].lastBeacon, c.expiration);
      ExpiredMeansOlder(now, capped[|capped| - 1].lastBeacon, c.expiration);
    }
  }

  /**
   After any run of beacons and ticks the bounded table holds exactly the
   most recently heard maxSize entries of the table that never evicts.
   */
  lemma {:induction false} EvictsLeastRecent(c: Conf, d: Conf, es: seq<Event>, now: Time)
    requires c.maxSize >= 1 && d == c.(maxSize := d.maxSize) && d.maxSize >= |es| + 2
    requires Monotone(es) && now.Valid() && forall i :: 0 <= i < |es| ==> es[i].at.AtMost(now)
    ensures IsTop(c, Run(c, es).table, Run(d, es).table)
  {
    if es != [] {
      var n := |es| - 1;
      var pre, at := es[..n], es[n].at;
      EvictsLeastRecent(c, d, pre, at);
      RunKeepsInv(c, pre, at);
      RunKeepsInv(d, pre, at);
      FullSize(d, pre);
      var s, f := Run(c, pre), Run(d, pre);
      match es[n] {
        case BeaconHeard(b, _) => HeardTop(c, d, s.table, f.table, b, at);
        case Tick(_) => DropTop(c, d, s.table, f.table, at);
      }
    }
  }
}
