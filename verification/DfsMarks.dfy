/**
 Reports of radar, CAC and NOP: marking channel state in the table, and
 deciding whether a report concerns the operating block.
 */
module DfsMarks {
  import opened Bytes
  import opened Dfs

  datatype ReportWidth = W20 | W40 | W80 | W160 | Other

  /** Where the driver says the event happened. */
  datatype Report = Report(freq: int, width: ReportWidth, cf1: int) {
    function Count(): (n: nat)
      ensures 1 <= n <= 8
    {
      match width case W20 => 1 case W40 => 2 case W80 => 4 case W160 => 8 case Other => 1
    }

    /** Frequency of the first 20 MHz channel concerned. */
    function First(): int {
      match width
      case W20 => if freq == 0 then cf1 else freq
      case W40 => cf1 - 10
      case W80 => cf1 - 30
      case W160 => cf1 - 70
      case Other => freq
    }

    predicate Covers(f: int) {
      exists j :: 0 <= j < Count() && f == First() + 20 * j
    }

    /** ieee80211_freq_to_chan knows the first channel, and it lies in the 5 GHz band. */
    predicate InBand() {
      5000 <= First() < 5900 && (First() - 5000) % 5 == 0
    }

    /** It lies in the 4.9 GHz band, and so do all the others, up to the first frequency of the 5 GHz band. */
    predicate Below() {
      4900 <= First() < 5000 && First() % 5 == 0 && First() + 20 * (Count() - 1) <= 5000
    }
  }

  // ----- marking -----

  /** set_dfs_state: the radar channels covered by the report take the new state, nothing else changes. */
  function Marked(t: Table, r: Report, state: DfsState): (t': Table)
    ensures |t'| == |t|
  {
    seq(|t|, i requires 0 <= i < |t| => if t[i].radar && r.Covers(t[i].freq) then t[i].(dfs := state) else t[i])
  }

  /** The width of a report in MHz. */
  function Megahertz(w: ReportWidth): int {
    match w case W20 => 20 case W40 => 40 case W80 => 80 case W160 => 160 case Other => 20
  }

  /** A report of 40 MHz or more covers the 20 MHz channels that lie within its width around cf1. */
  lemma CoversBand(r: Report, f: int)
    requires r.width in {W40, W80, W160}
    ensures r.Covers(f) <==> (f - r.cf1) % 20 == 10 && r.cf1 - Megahertz(r.width) / 2 <= f - 10
                             && f + 10 <= r.cf1 + Megahertz(r.width) / 2
  {
    var d := f - r.First();
    if d % 20 == 0 { assert f == r.First() + 20 * (d / 20); }
  }

  /** What a mark does, in frequencies: exactly the radar channels of the table inside the reported band change state. */
  lemma MarkedBand(t: Table, r: Report, state: DfsState, i: nat)
    requires i < |t|
    ensures var inside := match r.width
        case W20 => t[i].freq == (if r.freq == 0 then r.cf1 else r.freq)
        case Other => t[i].freq == r.freq
        case _ => (t[i].freq - r.cf1) % 20 == 10 && r.cf1 - Megahertz(r.width) / 2 <= t[i].freq - 10
                  && t[i].freq + 10 <= r.cf1 + Megahertz(r.width) / 2;
      Marked(t, r, state)[i] == if t[i].radar && inside then t[i].(dfs := state) else t[i]
  {
    if r.width in {W40, W80, W160} {
      CoversBand(r, t[i].freq);
    } else {
      assert r.Covers(t[i].freq) <==> t[i].freq == r.First() + 20 * 0;
    }
  }

  lemma MarkedKeepsTable(t: Table, r: Report, state: DfsState)
    requires ValidTable(t)
    ensures ValidTable(Marked(t, r, state))
  {}

  /** set_dfs_state_freq on the table in place. */
  method SetDfsStateFreq(channels: array<Channel>, freq: int, state: DfsState) returns (found: nat)
    requires ValidTable(channels[..])
    modifies channels
    ensures ValidTable(channels[..]) && channels[..] == MarkedFreq(old(channels[..]), freq, state)
    ensures found == if RadarAt(old(channels[..]), freq) then 1 else 0
  {
    ghost var t := channels[..];
    var i := 0;
    while i < channels.Length
      invariant 0 <= i <= channels.Length && channels[..] == t
      invariant forall k :: 0 <= k < i ==> !(t[k].radar && t[k].freq == freq)
    {
      if channels[i].freq == freq {
        if channels[i].radar {
          OnlyFreq(t, i);
          channels[i] := channels[i].(dfs := state);
          RemarkKeepsTable(t, i, state);
          assert channels[..] == t[i := t[i].(dfs := state)] == MarkedFreq(t, freq, state);
          return 1;
        }
      }
      i := i + 1;
    }
    assert t == MarkedFreq(t, freq, state);
    return 0;
  }

  lemma RemarkKeepsTable(t: Table, i: nat, state: DfsState)
    requires ValidTable(t) && i < |t| && t[i].radar
    ensures ValidTable(t[i := t[i].(dfs := state)])
  {}

  /** The first n of the frequencies a report covers. */
  predicate CoversUpTo(r: Report, n: nat, f: int) {
    exists j :: 0 <= j < n && f == r.First() + 20 * j
  }

  function MarkedUpTo(t: Table, r: Report, n: nat, state: DfsState): Table {
    seq(|t|, i requires 0 <= i < |t| => if t[i].radar && CoversUpTo(r, n, t[i].freq) then t[i].(dfs := state) else t[i])
  }

  function MarkedFreq(t: Table, freq: int, state: DfsState): Table {
    seq(|t|, i requires 0 <= i < |t| => if t[i].radar && t[i].freq == freq then t[i].(dfs := state) else t[i])
  }

  predicate RadarAt(t: Table, freq: int) {
    exists k :: 0 <= k < |t| && t[k].radar && t[k].freq == freq
  }

  predicate RadarUpTo(t: Table, r: Report, n: nat) {
    exists k :: 0 <= k < |t| && t[k].radar && CoversUpTo(r, n, t[k].freq)
  }

  lemma CoversNext(r: Report, n: nat, f: int)
    ensures CoversUpTo(r, n + 1, f) <==> CoversUpTo(r, n, f) || f == r.First() + 20 * n
  {}

  lemma MarkNext(t: Table, r: Report, n: nat, state: DfsState)
    ensures MarkedFreq(MarkedUpTo(t, r, n, state), r.First() + 20 * n, state) == MarkedUpTo(t, r, n + 1, state)
    ensures RadarUpTo(t, r, n + 1) <==>
              RadarUpTo(t, r, n) || RadarAt(MarkedUpTo(t, r, n, state), r.First() + 20 * n)
  {
    var u, v := MarkedUpTo(t, r, n, state), MarkedUpTo(t, r, n + 1, state);
    forall k | 0 <= k < |t|
      ensures MarkedFreq(u, r.First() + 20 * n, state)[k] == v[k]
      ensures u[k].radar == t[k].radar && u[k].freq == t[k].freq
      ensures CoversUpTo(r, n + 1, t[k].freq) <==> CoversUpTo(r, n, t[k].freq) || t[k].freq == r.First() + 20 * n
    {
      CoversNext(r, n, t[k].freq);
    }
    if RadarAt(u, r.First() + 20 * n) {
      var k :| 0 <= k < |u| && u[k].radar && u[k].freq == r.First() + 20 * n;
      assert t[k].radar && CoversUpTo(r, n + 1, t[k].freq);
    }
    if RadarUpTo(t, r, n + 1) && !RadarUpTo(t, r, n) {
      var k :| 0 <= k < |t| && t[k].radar && CoversUpTo(r, n + 1, t[k].freq);
      assert u[k].radar && u[k].freq == r.First() + 20 * n;
    }
  }

  lemma MarkedNone(t: Table, r: Report, state: DfsState)
    ensures MarkedUpTo(t, r, 0, state) == t && !RadarUpTo(t, r, 0)
  {}

  lemma MarkedAll(t: Table, r: Report, state: DfsState)
    ensures MarkedUpTo(t, r, r.Count(), state) == Marked(t, r, state)
  {
    assert forall k :: 0 <= k < |t| ==> (CoversUpTo(r, r.Count(), t[k].freq) <==> r.Covers(t[k].freq));
  }

  /** u is t after the first n frequencies, and ret tells whether a radar channel was among them. */
  predicate MarkedSoFar(t: Table, u: Table, ret: nat, r: Report, n: nat, state: DfsState) {
    u == MarkedUpTo(t, r, n, state) && (ret != 0 <==> RadarUpTo(t, r, n))
  }

  lemma MarkedFurther(t: Table, u: Table, ret: nat, r: Report, n: nat, state: DfsState)
    requires MarkedSoFar(t, u, ret, r, n, state)
    ensures var freq := r.First() + 20 * n;
      MarkedSoFar(t, MarkedFreq(u, freq, state), ret + if RadarAt(u, freq) then 1 else 0, r, n + 1, state)
  {
    MarkNext(t, r, n, state);
  }

  /** One turn of the loop over the reported frequencies. */
  method SetNext(channels: array<Channel>, freq: int, state: DfsState, ret: nat, ghost t: Table, ghost r: Report,
                 ghost n: nat)
    returns (ret': nat)
    requires ValidTable(channels[..]) && MarkedSoFar(t, channels[..], ret, r, n, state) && freq == r.First() + 20 * n
    modifies channels
    ensures ValidTable(channels[..]) && MarkedSoFar(t, channels[..], ret', r, n + 1, state)
  {
    MarkedFurther(t, channels[..], ret, r, n, state);
    var found := SetDfsStateFreq(channels, freq, state);
    ret' := ret + found;
  }

  /** set_dfs_state: the radar channels of the report take the new state in place, and nothing else changes. */
  method SetDfsState(channels: array<Channel>, r: Report, state: DfsState) returns (ret: nat)
    requires ValidTable(channels[..])
    modifies channels
    ensures ValidTable(channels[..]) && channels[..] == Marked(old(channels[..]), r, state)
    ensures ret != 0 <==> RadarUpTo(old(channels[..]), r, r.Count())
  {
    ghost var t := channels[..];
    var nChans, frequency := r.Count(), r.First();
    var i := 0;
    ret := 0;
    MarkedNone(t, r, state);
    while i < nChans
      invariant 0 <= i <= nChans && frequency == r.First() + 20 * i
      invariant ValidTable(channels[..]) && MarkedSoFar(t, channels[..], ret, r, i, state)
    {
      ret := SetNext(channels, frequency, state, ret, t, r, i);
      frequency := frequency + 20;
      i := i + 1;
    }
    MarkedAll(t, r, state);
  }

  // ----- does the event concern us? -----

  /** ieee80211_freq_to_chan; None where the C function leaves its result unset. */
  function FreqToChan(freq: int): Option<byte> {
    if 2412 <= freq <= 2472 then (if (freq - 2407) % 5 == 0 then Some((freq - 2407) / 5) else None)
    else if freq == 2484 then Some(14)
    else if 4900 <= freq < 5000 then (if (freq - 4000) % 5 == 0 then Some((freq - 4000) / 5) else None)
    else if 5000 <= freq < 5900 then (if (freq - 5000) % 5 == 0 then Some((freq - 5000) / 5) else None)
    else if 58320 <= freq <= 64800 then Some((freq - 56160) / 2160)
    else None
  }

  /** Channel n is the one at freq: 5 MHz apart up to 6 GHz, and slices of 2160 MHz at 60 GHz. */
  predicate IsNumberOf(n: byte, freq: int) {
    || (1 <= n <= 13 && freq == 2407 + 5 * n)
    || (n == 14 && freq == 2484)
    || (180 <= n < 200 && freq == 4000 + 5 * n)
    || (n < 180 && freq == 5000 + 5 * n)
    || (1 <= n <= 4 && 56160 + 2160 * n <= freq < 56160 + 2160 * (n + 1) && freq <= 64800)
  }

  /** Exactly those frequencies have a number. */
  lemma FreqToChanExactly(freq: int, n: byte)
    ensures FreqToChan(freq) == Some(n) <==> IsNumberOf(n, freq)
  {}

  /** A radar channel of the block is covered by the report. */
  predicate Concerned(t: Table, s: nat, n: nat, r: Report)
    requires Inside(t, s, n)
  {
    exists i :: s <= i < s + n && t[i].radar && r.Covers(t[i].freq)
  }

  /** One of n channel numbers, four apart, from first on. */
  predicate Matches(chan: int, first: int, n: nat) {
    exists q :: 0 <= q < n && chan == first + q * 4
  }

  /** The first reported channel number; unset is what the variable holds where it is not assigned. */
  function RadarChan(r: Report, unset: byte): int {
    var chan := FreqToChan(r.First());
    if chan.Some? then chan.value else unset
  }

  /** A radar channel of the block has one of the reported numbers. */
  predicate Overlapped(t: Table, s: nat, n: nat, r: Report, unset: byte)
    requires Inside(t, s, n)
  {
    exists i :: s <= i < s + n && t[i].radar && Matches(t[i].chan, RadarChan(r, unset), r.Count())
  }

  /** dfs_are_channels_overlapped, comparing channel numbers. */
  method AreChannelsOverlapped(c: Config, t: Table, r: Report, unset: byte) returns (res: nat)
    requires Running(c, t)
    ensures res != 0 <==> Overlapped(t, OperatingStart(c, t), NChans(c), r, unset)
  {
    var start, n := OperatingStart(c, t), NChans(c);
    res := 0;
    var radar := CheckChansRadar(t, start, n);
    if radar == 0 { return; }
    var conv := FreqToChan(r.First());
    var radarChan: int := if conv.Some? then conv.value else unset;
    var i := 0;
    while i < n
      invariant 0 <= i <= n
      invariant res != 0 <==>
                  exists k :: start <= k < start + i && t[k].radar && Matches(t[k].chan, radarChan, r.Count())
    {
      var chan := t[start + i];
      if chan.radar {
        var hits := CountMatches(chan.chan, radarChan, r.Count());
        res := res + hits;
      }
      i := i + 1;
    }
  }

  /** The inner loop: how many of the n reported channel numbers are this one. */
  method CountMatches(chan: int, radarChan: int, n: nat) returns (res: nat)
    ensures res != 0 <==> Matches(chan, radarChan, n)
  {
    res := 0;
    var j := 0;
    while j < n
      invariant 0 <= j <= n
      invariant res != 0 <==> Matches(chan, radarChan, j)
    {
      if chan == radarChan + j * 4 { res := res + 1; }
      j := j + 1;
    }
  }

  /** On a radar channel, channel numbers four apart are frequencies 20 MHz apart. */
  lemma NumbersMatchFrequencies(t: Table, i: nat, r: Report, unset: byte)
    requires ValidTable(t) && i < |t| && t[i].radar && r.InBand()
    ensures r.Covers(t[i].freq) <==> Matches(t[i].chan, RadarChan(r, unset), r.Count())
  {
    var base := (r.First() - 5000) / 5;
    assert r.First() == 5000 + 5 * base && RadarChan(r, unset) == base;
    if r.Covers(t[i].freq) {
      var j :| 0 <= j < r.Count() && t[i].freq == r.First() + 20 * j;
      assert t[i].chan == base + j * 4;
    }
    if q :| 0 <= q < r.Count() && t[i].chan == base + q * 4 {
      assert t[i].freq == r.First() + 20 * q;
    }
  }

  /** For reports in the 5 GHz band comparing numbers finds exactly the blocks whose radar channels were marked. */
  lemma OverlapIsConcern(t: Table, s: nat, n: nat, r: Report, unset: byte)
    requires ValidTable(t) && Inside(t, s, n) && r.InBand()
    ensures Overlapped(t, s, n, r, unset) <==> Concerned(t, s, n, r)
  {
    forall i | s <= i < s + n && t[i].radar
      ensures r.Covers(t[i].freq) <==> Matches(t[i].chan, RadarChan(r, unset), r.Count())
    {
      NumbersMatchFrequencies(t, i, r, unset);
    }
  }

  /** Comparing numbers is right about the report on every block of every table, whatever the unassigned number holds. */
  ghost predicate JudgedRight(r: Report) {
    forall t: Table, s: nat, n: nat, unset: byte {:trigger Overlapped(t, s, n, r, unset)} ::
      ValidTable(t) && Inside(t, s, n) ==> (Overlapped(t, s, n, r, unset) <==> Concerned(t, s, n, r))
  }

  /** Comparing numbers is right exactly for reports in the 5 GHz band, and for those that stay below it. */
  lemma JudgedRightExactly(r: Report)
    ensures JudgedRight(r) <==> r.InBand() || r.Below()
  {
    if r.InBand() || r.Below() {
      forall t: Table, s: nat, n: nat, unset: byte | ValidTable(t) && Inside(t, s, n)
        ensures Overlapped(t, s, n, r, unset) <==> Concerned(t, s, n, r)
      {
        if r.InBand() { OverlapIsConcern(t, s, n, r, unset); } else { BelowIsNeither(t, s, n, r, unset); }
      }
    } else if 4900 <= r.First() < 5000 && r.First() % 5 == 0 {
      ReachesUnseen(r);
    } else {
      SeenElsewhere(r);
    }
  }

  lemma BelowIsNeither(t: Table, s: nat, n: nat, r: Report, unset: byte)
    requires ValidTable(t) && Inside(t, s, n) && r.Below()
    ensures !Overlapped(t, s, n, r, unset) && !Concerned(t, s, n, r)
  {}

  /** A table of one radar channel. */
  function Single(chan: int): Table { [Channel(chan, 5000 + 5 * chan, false, true, Available, 60000)] }

  lemma SingleWrong(r: Report, chan: int, unset: byte)
    requires 0 < chan < 180 && (r.Covers(5000 + 5 * chan) <==> !Matches(chan, RadarChan(r, unset), r.Count()))
    ensures !JudgedRight(r)
  {
    var t := Single(chan);
    assert ValidTable(t) && Inside(t, 0, 1) && t[0].radar;
    assert Overlapped(t, 0, 1, r, unset) <==> !Concerned(t, 0, 1, r);
  }

  /** A report that reaches up into the 5 GHz band covers channels there, whose numbers it never has. */
  lemma ReachesUnseen(r: Report)
    requires 4900 <= r.First() < 5000 && r.First() % 5 == 0 && r.First() + 20 * (r.Count() - 1) > 5000
    ensures !JudgedRight(r)
  {
    var last := r.First() + 20 * (r.Count() - 1);
    var chan := (last - 5000) / 5;
    assert last == 5000 + 5 * chan && r.Covers(last);
    SingleWrong(r, chan, 0);
  }

  /** Elsewhere the first number, assigned or not, can be that of a channel the report does not cover. */
  lemma SeenElsewhere(r: Report)
    requires !r.InBand() && !(4900 <= r.First() < 5000 && r.First() % 5 == 0)
    ensures !JudgedRight(r)
  {
    var conv := FreqToChan(r.First());
    var chan: byte := if conv.Some? then conv.value else 52;
    assert RadarChan(r, chan) == chan == RadarChan(r, chan) + 0 * 4;
    assert Matches(chan, RadarChan(r, chan), r.Count());
    SingleWrong(r, chan, chan);
  }

  const ALONE: Table := [Channel(52, 5260, false, true, Available, 60000)]

  /** The unassigned number decides: a report off the channel raster counts, and marks nothing. */
  lemma OverlapWithoutConcern()
    ensures ValidTable(ALONE) && Inside(ALONE, 0, 1)
    ensures var r := Report(5261, W20, 0); Overlapped(ALONE, 0, 1, r, 52) && !Concerned(ALONE, 0, 1, r)
  {
    var r := Report(5261, W20, 0);
    assert FreqToChan(r.First()) == None;
    assert ALONE[0].chan == RadarChan(r, 52) + 0 * 4;
    assert Matches(ALONE[0].chan, RadarChan(r, 52), r.Count());
  }

  /** Two channels around 5000 MHz: the block at 5010 MHz is marked, and not found by the numbers 198 and 202. */
  lemma ConcernUnseen(unset: byte)
    ensures var t, r := Single(2), Report(0, W40, 5000);
      ValidTable(t) && Inside(t, 0, 1) && Concerned(t, 0, 1, r) && !Overlapped(t, 0, 1, r, unset)
  {
    var t, r := Single(2), Report(0, W40, 5000);
    assert t[0].radar && t[0].freq == r.First() + 20 * 1;
    assert r.Covers(t[0].freq) && RadarChan(r, unset) == 198;
  }
}
