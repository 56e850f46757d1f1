/**
 Choosing a channel block under dynamic frequency selection: the candidate
 search by frequency, the checks by table index, and the set-up decision that
 joins them. A channel's flag word is kept as its fields.
 */
module Dfs {
  import opened Bytes
  import Bits

  datatype DfsState = Unknown | Usable | Unavailable | Available

  datatype Channel = Channel(chan: int, freq: int, disabled: bool, radar: bool, dfs: DfsState, cacMs: nat)

  type Table = seq<Channel>

  datatype Width = UseHt | Width80 | Width160

  /** The fields of the interface configuration that say where the radio operates. */
  datatype Config = Config(channel: int, secondary: int, ht: bool, vht: bool, width: Width,
                           seg0: byte, seg1: byte, chanList: seq<(int, int)>)

  predicate Increasing(t: Table) {
    forall i, j {:trigger t[i].freq, t[j].freq} :: 0 <= i < j < |t| ==> t[j].freq >= t[i].freq + 20 * (j - i)
  }

  predicate UniqueChans(t: Table) {
    forall i, j {:trigger t[i].chan, t[j].chan} :: 0 <= i < j < |t| ==> t[i].chan != t[j].chan
  }

  /** The shape of a 5 GHz channel table as the driver reports it. */
  predicate ValidTable(t: Table) {
    && Increasing(t) && UniqueChans(t)
    && forall i :: 0 <= i < |t| ==>
         0 < t[i].chan <= 200
         && (if t[i].radar then 5000 <= t[i].freq < 5900 && t[i].freq == 5000 + 5 * t[i].chan
             else t[i].dfs == Unknown)
  }

  /** dfs_get_used_n_chans */
  function NChans(c: Config): (n: nat)
    ensures 1 <= n <= 8
  {
    var base := if c.ht && c.secondary != 0 then 2 else 1;
    if !c.vht then base
    else match c.width
      case UseHt => base
      case Width80 => 4
      case Width160 => 8
  }

  /** dfs_channel_available */
  predicate ChannelAvailable(ch: Channel, skipRadar: bool) {
    if skipRadar && ch.radar && ch.dfs != Available then false
    else if ch.disabled then false
    else !(ch.radar && ch.dfs == Unavailable)
  }

  const ALLOWED_40: set<int> := {36, 44, 52, 60, 100, 108, 116, 124, 132, 149, 157, 184, 192}
  const ALLOWED_80: set<int> := {36, 52, 100, 116, 132, 149}
  const ALLOWED_160: set<int> := {36, 100}

  /** dfs_is_chan_allowed */
  predicate ChanAllowed(ch: Channel, n: nat) {
    if n == 2 then ch.chan in ALLOWED_40
    else if n == 4 then ch.chan in ALLOWED_80
    else if n == 8 then ch.chan in ALLOWED_160
    else false
  }

  /** Channels lo, lo + 4, ..., hi take a block of n at ch, aligned to the first of them. */
  predicate AlignedIn(ch: int, n: nat, lo: int, hi: int)
    requires n > 0
  {
    lo <= ch && ch + 4 * (n - 1) <= hi && (ch - lo) % (4 * n) == 0
  }

  /** The three lists hold the aligned blocks of the sub-bands; the pair 140, 144 alone is left out. */
  lemma AllowedExactly(ch: Channel, n: nat)
    requires n in {2, 4, 8}
    ensures ChanAllowed(ch, n) <==>
            || AlignedIn(ch.chan, n, 36, 64) || (AlignedIn(ch.chan, n, 100, 144) && !(n == 2 && ch.chan == 140))
            || AlignedIn(ch.chan, n, 149, 161) || (n == 2 && AlignedIn(ch.chan, n, 184, 196))
  {}

  /** What a search through the table compares. */
  datatype Key = ByFreq | ByNumber

  function KeyOf(key: Key, ch: Channel): int {
    if key == ByFreq then ch.freq else ch.chan
  }

  /** First entry at or after an index with the given frequency or number. */
  function Find(key: Key, t: Table, v: int, from: nat): (r: Option<nat>)
    ensures r.Some? ==> from <= r.value < |t| && KeyOf(key, t[r.value]) == v
    ensures r.None? ==> forall k :: from <= k < |t| ==> KeyOf(key, t[k]) != v
    decreases |t| - from
  {
    if from >= |t| then None else if KeyOf(key, t[from]) == v then Some(from) else Find(key, t, v, from + 1)
  }

  /** dfs_chan_range_available */
  predicate RangeAvailable(t: Table, first: nat, n: nat, skipRadar: bool)
    requires first < |t|
  {
    first + n <= |t|
    && forall i :: 0 <= i < n ==>
         var k := Find(ByFreq, t, t[first].freq + i * 20, first);
         k.Some? && ChannelAvailable(t[k.value], skipRadar)
  }

  /** is_in_chanlist */
  predicate InChanList(c: Config, ch: Channel) {
    c.chanList == [] || exists r :: r in c.chanList && r.0 <= ch.chan <= r.1
  }

  /** What dfs_find_channel accepts as the first channel of a block. */
  predicate Acceptable(c: Config, t: Table, i: nat, skipRadar: bool)
    requires i < |t|
  {
    && (c.ht && c.secondary != 0 ==> ChanAllowed(t[i], NChans(c)))
    && RangeAvailable(t, i, NChans(c), skipRadar)
    && InChanList(c, t[i])
  }

  // ----- the search agrees with the index-based checks -----

  /** The n entries from an index on are 20 MHz apart. */
  predicate Contiguous(t: Table, first: nat, n: nat) {
    first + n <= |t| && forall i :: 0 <= i < n ==> t[first + i].freq == t[first].freq + 20 * i
  }

  predicate BlockAvailable(t: Table, first: nat, n: nat, skipRadar: bool)
    requires first + n <= |t|
  {
    forall i :: first <= i < first + n ==> ChannelAvailable(t[i], skipRadar)
  }

  lemma FoundInPlace(t: Table, first: nat, n: nat, i: nat)
    requires Increasing(t) && first + n <= |t| && i < n
    requires forall j :: 0 <= j < n ==> Find(ByFreq, t, t[first].freq + j * 20, first).Some?
    ensures Find(ByFreq, t, t[first].freq + i * 20, first) == Some(first + i)
  {
    var k := Find(ByFreq, t, t[first].freq + i * 20, first).value;
    if k > first {
      assert t[k].freq >= t[first].freq + 20 * (k - first);
    }
    assert k <= first + i;
    if k < first + i {
      FoundApart(t, first, n, k - first, i);
    }
  }

  /** Different offsets are found at different, ordered places, so offset i is at least i places on. */
  lemma {:induction false} FoundApart(t: Table, first: nat, n: nat, k: nat, i: nat)
    requires Increasing(t) && first + n <= |t| && k < i < n
    requires forall j :: 0 <= j < n ==> Find(ByFreq, t, t[first].freq + j * 20, first).Some?
    requires Find(ByFreq, t, t[first].freq + i * 20, first) == Some(first + k)
    ensures false
    decreases i
  {
    var p := Find(ByFreq, t, t[first].freq + (i - 1) * 20, first).value;
    assert t[p].freq < t[first + k].freq;
    assert p < first + k;
    FoundApart(t, first, n, p - first, i - 1);
  }

  lemma OnlyFreq(t: Table, i: nat)
    requires Increasing(t) && i < |t|
    ensures forall k :: 0 <= k < |t| && k != i ==> t[k].freq != t[i].freq
  {
    forall k | 0 <= k < |t| && k != i ensures t[k].freq != t[i].freq {
      if k < i { assert t[i].freq >= t[k].freq + 20 * (i - k); }
      if k > i { assert t[k].freq >= t[i].freq + 20 * (k - i); }
    }
  }

  lemma FindOnly(t: Table, i: nat, from: nat, v: int)
    requires Increasing(t) && from <= i < |t| && t[i].freq == v
    ensures Find(ByFreq, t, v, from) == Some(i)
  {
    OnlyFreq(t, i);
    assert KeyOf(ByFreq, t[i]) == v;
  }

  lemma FreqAt(t: Table, first: nat, n: nat, i: nat)
    requires Increasing(t) && Contiguous(t, first, n) && i < n
    ensures Find(ByFreq, t, t[first].freq + i * 20, first) == Some(first + i)
  {
    var v := t[first].freq + i * 20;
    assert t[first + i].freq == v;
    FindOnly(t, first + i, first, v);
  }

  lemma RangeGivesBlock(t: Table, first: nat, n: nat, skipRadar: bool)
    requires Increasing(t) && first < |t| && RangeAvailable(t, first, n, skipRadar)
    ensures Contiguous(t, first, n) && BlockAvailable(t, first, n, skipRadar)
  {
    forall i | 0 <= i < n ensures t[first + i].freq == t[first].freq + 20 * i {
      FoundInPlace(t, first, n, i);
    }
    forall k | first <= k < first + n ensures ChannelAvailable(t[k], skipRadar) {
      var i := k - first;
      FoundInPlace(t, first, n, i);
      assert Find(ByFreq, t, t[first].freq + i * 20, first) == Some(k);
    }
  }

  lemma BlockGivesRange(t: Table, first: nat, n: nat, skipRadar: bool)
    requires Increasing(t) && first < |t| && Contiguous(t, first, n) && BlockAvailable(t, first, n, skipRadar)
    ensures RangeAvailable(t, first, n, skipRadar)
  {
    forall i | 0 <= i < n
      ensures Find(ByFreq, t, t[first].freq + i * 20, first) == Some(first + i)
      ensures ChannelAvailable(t[first + i], skipRadar)
    {
      FreqAt(t, first, n, i);
    }
  }

  /** Searching by frequency and checking by index see the same block. */
  lemma RangeIsBlock(t: Table, first: nat, n: nat, skipRadar: bool)
    requires Increasing(t) && first < |t|
    ensures RangeAvailable(t, first, n, skipRadar) <==>
              Contiguous(t, first, n) && BlockAvailable(t, first, n, skipRadar)
  {
    if RangeAvailable(t, first, n, skipRadar) { RangeGivesBlock(t, first, n, skipRadar); }
    if Contiguous(t, first, n) && BlockAvailable(t, first, n, skipRadar) { BlockGivesRange(t, first, n, skipRadar); }
  }

  // ----- count then pick -----

  /** The acceptable indices from one on, in table order. */
  function Candidates(c: Config, t: Table, from: nat, skipRadar: bool): seq<nat>
    decreases |t| - from
  {
    if from >= |t| then []
    else
      var rest := Candidates(c, t, from + 1, skipRadar);
      if Acceptable(c, t, from, skipRadar) then [from] + rest else rest
  }

  /** Candidates lists each acceptable index exactly once, in order, and nothing else. */
  lemma {:induction false} CandidatesExact(c: Config, t: Table, from: nat, skipRadar: bool)
    ensures var r := Candidates(c, t, from, skipRadar);
      && (forall i: nat :: i in r <==> from <= i < |t| && Acceptable(c, t, i, skipRadar))
      && (forall j, k :: 0 <= j < k < |r| ==> r[j] < r[k])
    decreases |t| - from
  {
    if from < |t| {
      CandidatesExact(c, t, from + 1, skipRadar);
      Prepend(from, Candidates(c, t, from + 1, skipRadar));
    }
  }

  lemma Prepend(x: nat, rest: seq<nat>)
    requires forall i :: i in rest ==> x < i
    requires forall j, k :: 0 <= j < k < |rest| ==> rest[j] < rest[k]
    ensures forall i :: i in [x] + rest <==> i == x || i in rest
    ensures forall j, k :: 0 <= j < k < |[x] + rest| ==> ([x] + rest)[j] < ([x] + rest)[k]
  {
    assert forall k :: 0 <= k < |rest| ==> rest[k] in rest;
  }

  /** dfs_get_chan_data */
  method GetChanData(t: Table, freq: int, first: nat) returns (r: Option<nat>)
    ensures r == Find(ByFreq, t, freq, first)
  {
    var i := first;
    while i < |t|
      invariant Find(ByFreq, t, freq, first) == Find(ByFreq, t, freq, i)
    {
      if t[i].freq == freq {
        return Some(i);
      }
      i := i + 1;
    }
    return None;
  }

  method RangeAvailableLoop(t: Table, first: nat, n: nat, skipRadar: bool) returns (ok: bool)
    requires first < |t|
    ensures ok == RangeAvailable(t, first, n, skipRadar)
  {
    if first + n > |t| { return false; }
    var i := 0;
    while i < n
      invariant 0 <= i <= n
      invariant forall j :: 0 <= j < i ==>
        var k := Find(ByFreq, t, t[first].freq + j * 20, first);
        k.Some? && ChannelAvailable(t[k.value], skipRadar)
    {
      var chan := GetChanData(t, t[first].freq + i * 20, first);
      if chan == None { return false; }
      if !ChannelAvailable(t[chan.value], skipRadar) { return false; }
      i := i + 1;
    }
    return true;
  }

  /** The tests of dfs_find_channel on one channel. */
  method AcceptsChannel(c: Config, t: Table, i: nat, skipRadar: bool) returns (ok: bool)
    requires i < |t|
    ensures ok == Acceptable(c, t, i, skipRadar)
  {
    if c.ht && c.secondary != 0 && !ChanAllowed(t[i], NChans(c)) {
      return false;
    }
    ok := RangeAvailableLoop(t, i, NChans(c), skipRadar);
    ok := ok && InChanList(c, t[i]);
  }

  /**
   dfs_find_channel. Without pick it counts the acceptable blocks; with pick it
   returns the idx-th of them. Every idx below the count is found, distinct idx
   give distinct blocks, and every acceptable block has an idx.
   */
  method FindChannel(c: Config, t: Table, pick: bool, idx: nat, skipRadar: bool)
    returns (count: nat, chosen: Option<nat>)
    ensures !pick ==> chosen == None && count == |Candidates(c, t, 0, skipRadar)|
    ensures pick && idx < |Candidates(c, t, 0, skipRadar)| ==> chosen == Some(Candidates(c, t, 0, skipRadar)[idx])
    ensures pick && idx >= |Candidates(c, t, 0, skipRadar)| ==> chosen == None
  {
    ghost var all := Candidates(c, t, 0, skipRadar);
    var i, channelIdx := 0, 0;
    while i < |t|
      invariant 0 <= i <= |t| && channelIdx <= |all|
      invariant all[channelIdx..] == Candidates(c, t, i, skipRadar)
      invariant pick ==> channelIdx <= idx
    {
      var ok := AcceptsChannel(c, t, i, skipRadar);
      if ok {
        TailOf(all, channelIdx, i, Candidates(c, t, i + 1, skipRadar));
        if pick && idx == channelIdx {
          return idx, Some(i);
        }
        channelIdx := channelIdx + 1;
      }
      i := i + 1;
    }
    assert all[channelIdx..] == [];
    return channelIdx, None;
  }

  lemma TailOf(all: seq<nat>, k: nat, x: nat, rest: seq<nat>)
    requires k <= |all| && all[k..] == [x] + rest
    ensures k < |all| && all[k] == x && all[k + 1..] == rest
  {
    assert all[k..][0] == x;
    assert all[k + 1..] == all[k..][1..];
  }

  // ----- retuning -----

  /** dfs_adjust_vht_center_freq on a block starting at ch, secondary channel above or none. */
  function CenterSeg0(c: Config, ch: Channel, secondary: int): byte {
    if !c.vht then 0
    else match c.width
      case UseHt => (if secondary == 1 then ch.chan + 2 else if secondary == -1 then ch.chan - 2 else ch.chan) % 256
      case Width80 => (ch.chan + 6) % 256
      case Width160 => (ch.chan + 14) % 256
  }

  /** The configuration after moving to the block that starts at ch. */
  function Retune(c: Config, ch: Channel): Config {
    var secondary := if c.secondary != 0 then 1 else 0;
    c.(channel := ch.chan, secondary := secondary, seg0 := CenterSeg0(c, ch, secondary), seg1 := 0)
  }

  /** Number of the first channel of the configured block. */
  function StartChan(c: Config): int {
    var first := if c.ht && c.secondary == -1 then c.channel - 4 else c.channel;
    if !c.vht then first
    else match c.width
      case UseHt => first
      case Width80 => c.seg0 as int - 6
      case Width160 => c.seg0 as int - 14
  }

  function StartIdx(c: Config, t: Table): Option<nat> {
    Find(ByNumber, t, StartChan(c), 0)
  }

  /** The checks made after a move look at exactly the block the search chose. */
  lemma RetuneLandsOnBlock(c: Config, t: Table, i: nat)
    requires ValidTable(t) && i < |t|
    ensures StartIdx(Retune(c, t[i]), t) == Some(i) && NChans(Retune(c, t[i])) == NChans(c)
  {
    assert StartChan(Retune(c, t[i])) == t[i].chan;
    forall j | 0 <= j < |t| && t[j].chan == t[i].chan ensures j == i {}
  }

  /** dfs_get_start_chan_idx */
  method GetStartChanIdx(c: Config, t: Table) returns (r: Option<nat>)
    ensures r == StartIdx(c, t)
  {
    var channelNo := c.channel;
    if c.ht && c.secondary == -1 {
      channelNo := channelNo - 4;
    }
    if c.vht {
      match c.width {
        case UseHt =>
        case Width80 => channelNo := c.seg0 - 6;
        case Width160 => channelNo := c.seg0 - 14;
      }
    }
    var i := 0;
    while i < |t|
      invariant 0 <= i && StartIdx(c, t) == Find(ByNumber, t, channelNo, i)
    {
      if t[i].chan == channelNo {
        return Some(i);
      }
      i := i + 1;
    }
    return None;
  }

  // ----- index-based checks -----

  /** The block of n entries from s on lies inside the table. */
  predicate Inside(t: Table, s: nat, n: nat) { s + n <= |t| }

  predicate HasRadar(t: Table, s: nat, n: nat)
    requires Inside(t, s, n)
  {
    exists i :: s <= i < s + n && t[i].radar
  }

  /** dfs_check_chans_available */
  predicate AllAvailable(t: Table, s: nat, n: nat)
    requires Inside(t, s, n)
  {
    forall i :: s <= i < s + n ==> !t[i].disabled && (t[i].radar ==> t[i].dfs == Available)
  }

  /** Some channel of the block counts in dfs_check_chans_unavailable. */
  predicate SomeUnavailable(t: Table, s: nat, n: nat)
    requires Inside(t, s, n)
  {
    exists i :: s <= i < s + n && (t[i].disabled || t[i].dfs == Unavailable)
  }

  /** Every radar channel of the block has completed its availability check. */
  predicate RadarCleared(t: Table, s: nat, n: nat)
    requires Inside(t, s, n)
  {
    forall i :: s <= i < s + n && t[i].radar ==> t[i].dfs == Available
  }

  predicate AllEnabled(t: Table, s: nat, n: nat)
    requires Inside(t, s, n)
  {
    forall i :: s <= i < s + n ==> !t[i].disabled
  }

  function MaxCac(t: Table, s: nat, n: nat): (m: nat)
    requires Inside(t, s, n)
    ensures forall i :: s <= i < s + n && t[i].radar ==> t[i].cacMs <= m
    ensures m > 0 ==> exists i :: s <= i < s + n && t[i].radar && t[i].cacMs == m
  {
    if n == 0 then 0
    else
      var m := MaxCac(t, s, n - 1);
      if t[s + n - 1].radar && t[s + n - 1].cacMs > m then t[s + n - 1].cacMs else m
  }

  method CheckChansRadar(t: Table, s: nat, n: nat) returns (res: nat)
    requires Inside(t, s, n)
    ensures res != 0 <==> HasRadar(t, s, n)
  {
    var i := 0;
    res := 0;
    while i < n
      invariant 0 <= i <= n
      invariant res != 0 <==> exists k :: s <= k < s + i && t[k].radar
    {
      if t[s + i].radar { res := res + 1; }
      i := i + 1;
    }
  }

  method CheckChansAvailable(t: Table, s: nat, n: nat) returns (ok: bool)
    requires Inside(t, s, n)
    ensures ok == AllAvailable(t, s, n)
  {
    var i := 0;
    while i < n
      invariant 0 <= i <= n
      invariant forall k :: s <= k < s + i ==> !t[k].disabled && (t[k].radar ==> t[k].dfs == Available)
    {
      if t[s + i].disabled { break; }
      if t[s + i].radar && t[s + i].dfs != Available { break; }
      i := i + 1;
    }
    ok := i == n;
  }

  method CheckChansUnavailable(t: Table, s: nat, n: nat) returns (res: nat)
    requires Inside(t, s, n)
    ensures res != 0 <==> SomeUnavailable(t, s, n)
  {
    var i := 0;
    res := 0;
    while i < n
      invariant 0 <= i <= n
      invariant res != 0 <==> exists k :: s <= k < s + i && (t[k].disabled || t[k].dfs == Unavailable)
    {
      if t[s + i].disabled { res := res + 1; }
      if t[s + i].dfs == Unavailable { res := res + 1; }
      i := i + 1;
    }
  }

  method GetCacTime(t: Table, s: nat, n: nat) returns (ms: nat)
    requires Inside(t, s, n)
    ensures ms == MaxCac(t, s, n)
  {
    var i := 0;
    ms := 0;
    while i < n
      invariant 0 <= i <= n && ms == MaxCac(t, s, i)
    {
      if t[s + i].radar && t[s + i].cacMs > ms { ms := t[s + i].cacMs; }
      i := i + 1;
    }
  }

  /** dfs_get_valid_channel: a random acceptable block; None when there is none or no randomness. */
  function ValidChannel(c: Config, t: Table, random: Option<nat>, skipRadar: bool): (r: Option<nat>)
    ensures r.Some? ==> r.value < |t| && Acceptable(c, t, r.value, skipRadar)
    ensures random.Some? ==> (r.None? <==> forall i :: 0 <= i < |t| ==> !Acceptable(c, t, i, skipRadar))
  {
    CandidatesExact(c, t, 0, skipRadar);
    var all := Candidates(c, t, 0, skipRadar);
    if all == [] || random == None then None
    else
      var k := random.value % |all|;
      assert all[k] in all;
      Some(all[k])
  }

  method GetValidChannel(c: Config, t: Table, random: Option<nat>, skipRadar: bool) returns (r: Option<nat>)
    ensures r == ValidChannel(c, t, random, skipRadar)
  {
    var count, _ := FindChannel(c, t, false, 0, skipRadar);
    if count == 0 { return None; }
    if random == None { return None; }
    var _, chosen := FindChannel(c, t, true, random.value % count, skipRadar);
    r := chosen;
  }

  /** Each acceptable block can be drawn: some random word picks it. */
  lemma EveryCandidateReachable(c: Config, t: Table, i: nat, skipRadar: bool)
    requires i < |t| && Acceptable(c, t, i, skipRadar)
    ensures exists w: nat :: w < |Candidates(c, t, 0, skipRadar)| && ValidChannel(c, t, Some(w), skipRadar) == Some(i)
  {
    CandidatesExact(c, t, 0, skipRadar);
    var all := Candidates(c, t, 0, skipRadar);
    var w :| 0 <= w < |all| && all[w] == i;
    Bits.RemainderUnique(w, |all|, 0, w);
    assert ValidChannel(c, t, Some(w), skipRadar) == Some(i);
  }

  // ----- the operating band, in MHz -----

  /** Centre and half the width of the band the configuration operates on. */
  function Band(c: Config): (r: (int, int)) {
    var primary := 5000 + 5 * c.channel;
    if c.vht && c.width == Width80 then (5000 + 5 * c.seg0 as int, 40)
    else if c.vht && c.width == Width160 then (5000 + 5 * c.seg0 as int, 80)
    else if c.ht && c.secondary == -1 then (primary - 10, 20)
    else if c.ht && c.secondary != 0 then (primary + 10, 20)
    else (primary, 10)
  }

  /** The 20 MHz around f lie inside the operating band. */
  predicate InBand(c: Config, f: int) {
    Band(c).0 - Band(c).1 <= f - 10 && f + 10 <= Band(c).0 + Band(c).1
  }

  /** The channel number of the entry follows from its frequency, as everywhere in the 5 GHz band. */
  predicate OnRaster(ch: Channel) { ch.freq == 5000 + 5 * ch.chan }

  /** The block the index-based checks look at takes in every channel of the band, and nothing else if it has no gaps. */
  lemma BlockIsBand(c: Config, t: Table, i: nat)
    requires ValidTable(t) && Running(c, t) && OnRaster(t[OperatingStart(c, t)]) && i < |t|
    ensures var s, n := OperatingStart(c, t), NChans(c);
      && (InBand(c, t[i].freq) ==> s <= i < s + n)
      && (Contiguous(t, s, n) && s <= i < s + n ==> InBand(c, t[i].freq))
  {
    var s, n := OperatingStart(c, t), NChans(c);
    assert t[s].chan == StartChan(c);
    assert t[s].freq - 10 == Band(c).0 - Band(c).1 && 20 * n == 2 * Band(c).1;
    if i < s { assert t[s].freq >= t[i].freq + 20 * (s - i); }
    if i > s { assert t[i].freq >= t[s].freq + 20 * (i - s); }
    if Contiguous(t, s, n) && s <= i < s + n { assert t[s + (i - s)].freq == t[s].freq + 20 * (i - s); }
  }

  // ----- set-up -----

  datatype Decision = Failed | Proceed | NoChannel | StartCac

  /** Outcome of the checks on the block the configuration names. */
  function CheckBlock(t: Table, s: nat, n: nat): Option<Decision>
    requires Inside(t, s, n)
  {
    if !HasRadar(t, s, n) then Some(Proceed)
    else if AllAvailable(t, s, n) then Some(Proceed)
    else if SomeUnavailable(t, s, n) then None
    else Some(StartCac)
  }

  predicate Configured(c: Config, t: Table) {
    StartIdx(c, t).Some? ==> Inside(t, StartIdx(c, t).value, NChans(c))
  }

  /** The configuration names a block of the table. */
  predicate Running(c: Config, t: Table) {
    StartIdx(c, t).Some? && Inside(t, StartIdx(c, t).value, NChans(c))
  }

  function OperatingStart(c: Config, t: Table): (s: nat)
    requires Running(c, t)
    ensures Inside(t, s, NChans(c))
  {
    StartIdx(c, t).value
  }

  /** An acceptable block passes the index-based checks, so no second move is ever needed. */
  lemma AcceptablePasses(c: Config, t: Table, i: nat, skipRadar: bool)
    requires ValidTable(t) && i < |t| && Acceptable(c, t, i, skipRadar)
    ensures Inside(t, i, NChans(c)) && Contiguous(t, i, NChans(c)) && !SomeUnavailable(t, i, NChans(c))
    ensures CheckBlock(t, i, NChans(c)).Some? && CheckBlock(t, i, NChans(c)).value != NoChannel
    ensures CheckBlock(t, i, NChans(c)).value != Failed
    ensures skipRadar ==> RadarCleared(t, i, NChans(c))
  {
    RangeIsBlock(t, i, NChans(c), skipRadar);
  }

  /** The set-up decision without the loop. */
  function Handle(c: Config, t: Table, random: Option<nat>): (r: (Decision, Config))
    requires ValidTable(t) && Configured(c, t)
  {
    match StartIdx(c, t)
    case None => (Failed, c)
    case Some(s) =>
      match CheckBlock(t, s, NChans(c))
      case Some(d) => (d, c)
      case None =>
        match ValidChannel(c, t, random, false)
        case None => (NoChannel, c)
        case Some(i) =>
          AcceptablePasses(c, t, i, false);
          (CheckBlock(t, i, NChans(c)).value, Retune(c, t[i]))
  }

  /** What each decision promises about the block the configuration then names. */
  predicate Kept(t: Table, s: nat, n: nat, d: Decision)
    requires Inside(t, s, n)
  {
    && (d == Proceed ==> RadarCleared(t, s, n) && (HasRadar(t, s, n) ==> AllEnabled(t, s, n)))
    && (d == StartCac ==> !SomeUnavailable(t, s, n) && !RadarCleared(t, s, n))
  }

  lemma CheckBlockKeeps(t: Table, s: nat, n: nat)
    requires Inside(t, s, n) && CheckBlock(t, s, n).Some?
    ensures Kept(t, s, n, CheckBlock(t, s, n).value)
  {}

  /**
   Set-up is safe: it only proceeds on a block whose radar channels are all
   cleared, and with no channel disabled if there is one, only starts CAC on a
   block with no disabled or unavailable channel, and only gives up when no
   acceptable block is left (or randomness failed).
   */
  lemma SetupIsSafe(c: Config, t: Table, random: Option<nat>)
    requires ValidTable(t) && Configured(c, t)
    ensures var (d, c') := Handle(c, t, random);
      && Configured(c', t) && NChans(c') == NChans(c)
      && (d == Failed <==> StartIdx(c, t) == None)
      && (d == Proceed || d == StartCac ==> Running(c', t) && Kept(t, OperatingStart(c', t), NChans(c'), d))
      && (d == NoChannel && random.Some? ==> forall i :: 0 <= i < |t| ==> !Acceptable(c, t, i, false))
  {
    if StartIdx(c, t).Some? {
      var s := OperatingStart(c, t);
      if CheckBlock(t, s, NChans(c)).Some? {
        CheckBlockKeeps(t, s, NChans(c));
      } else if ValidChannel(c, t, random, false).Some? {
        var i := ValidChannel(c, t, random, false).value;
        RetuneLandsOnBlock(c, t, i);
        AcceptablePasses(c, t, i, false);
        CheckBlockKeeps(t, i, NChans(c));
      }
    }
  }

  /** Every radar channel in the operating band is AVAILABLE, and with one there no channel of the band is disabled. */
  predicate BandCleared(c: Config, t: Table) {
    && (forall i :: 0 <= i < |t| && t[i].radar && InBand(c, t[i].freq) ==> t[i].dfs == Available)
    && (BandHasRadar(c, t) ==> forall i :: 0 <= i < |t| && InBand(c, t[i].freq) ==> !t[i].disabled)
  }

  predicate BandHasRadar(c: Config, t: Table) {
    exists i :: 0 <= i < |t| && t[i].radar && InBand(c, t[i].freq)
  }

  /** No channel in the operating band is disabled or under a non-occupancy period. */
  predicate BandUsable(c: Config, t: Table) {
    forall i :: 0 <= i < |t| && InBand(c, t[i].freq) ==> !t[i].disabled && t[i].dfs != Unavailable
  }

  /** What set-up promises, in frequencies: it proceeds only on a cleared band, and starts CAC only on a usable one. */
  lemma SetupInBand(c: Config, t: Table, random: Option<nat>)
    requires ValidTable(t) && Configured(c, t)
    ensures var (d, c') := Handle(c, t, random);
      d == Proceed || d == StartCac ==>
        && Running(c', t)
        && (OnRaster(t[OperatingStart(c', t)]) ==> if d == Proceed then BandCleared(c', t) else BandUsable(c', t))
  {
    SetupIsSafe(c, t, random);
    var (d, c') := Handle(c, t, random);
    if (d == Proceed || d == StartCac) && OnRaster(t[OperatingStart(c', t)]) {
      forall i | 0 <= i < |t| && InBand(c', t[i].freq)
        ensures OperatingStart(c', t) <= i < OperatingStart(c', t) + NChans(c')
      {
        BlockIsBand(c', t, i);
      }
    }
  }

  /** The block consists of exactly the channels of the band. */
  predicate FillsBand(c: Config, t: Table, s: nat, n: nat) {
    Inside(t, s, n) && forall i :: 0 <= i < |t| ==> (InBand(c, t[i].freq) <==> s <= i < s + n)
  }

  lemma RadarInBand(c: Config, t: Table, s: nat, n: nat)
    requires FillsBand(c, t, s, n)
    ensures HasRadar(t, s, n) <==> BandHasRadar(c, t)
  {}

  lemma AvailableInBand(c: Config, t: Table, s: nat, n: nat)
    requires FillsBand(c, t, s, n)
    ensures BandCleared(c, t) <==> !HasRadar(t, s, n) || AllAvailable(t, s, n)
  {
    RadarInBand(c, t, s, n);
  }

  lemma UsableInBand(c: Config, t: Table, s: nat, n: nat)
    requires FillsBand(c, t, s, n)
    ensures BandUsable(c, t) <==> !SomeUnavailable(t, s, n)
  {}

  /** On a block without gaps the decision is that of the band: proceed, CAC, or look elsewhere. */
  lemma DecisionByBand(c: Config, t: Table)
    requires ValidTable(t) && Running(c, t) && OnRaster(t[OperatingStart(c, t)])
    requires Contiguous(t, OperatingStart(c, t), NChans(c))
    ensures CheckBlock(t, OperatingStart(c, t), NChans(c))
         == if BandCleared(c, t) then Some(Proceed) else if BandUsable(c, t) then Some(StartCac) else None
  {
    var s, n := OperatingStart(c, t), NChans(c);
    forall i | 0 <= i < |t| ensures InBand(c, t[i].freq) <==> s <= i < s + n {
      BlockIsBand(c, t, i);
    }
    AvailableInBand(c, t, s, n);
    UsableInBand(c, t, s, n);
  }

  /** ch may be the first channel of a block of the configured width. */
  predicate MayStart(c: Config, ch: Channel) {
    && (c.ht && c.secondary != 0 ==>
          var n := NChans(c);
          || AlignedIn(ch.chan, n, 36, 64) || (AlignedIn(ch.chan, n, 100, 144) && !(n == 2 && ch.chan == 140))
          || AlignedIn(ch.chan, n, 149, 161) || (n == 2 && AlignedIn(ch.chan, n, 184, 196)))
    && (c.chanList == [] || exists r :: r in c.chanList && r.0 <= ch.chan <= r.1)
  }

  /**
   The search accepts exactly the blocks without gaps, disabled channels and
   channels under a non-occupancy period, of cleared radar channels only if CAC
   is to be avoided, that start where such a block may start.
   */
  lemma AcceptableExactly(c: Config, t: Table, i: nat, skipRadar: bool)
    requires ValidTable(t) && i < |t|
    ensures Acceptable(c, t, i, skipRadar) <==>
            && MayStart(c, t[i]) && Contiguous(t, i, NChans(c))
            && forall k :: i <= k < i + NChans(c) ==>
                 !t[k].disabled && t[k].dfs != Unavailable && (skipRadar && t[k].radar ==> t[k].dfs == Available)
  {
    if c.ht && c.secondary != 0 { AllowedExactly(t[i], NChans(c)); }
    RangeIsBlock(t, i, NChans(c), skipRadar);
  }

  /** Retuning puts the primary channel lowest, the secondary one above it, and the centre in the middle of the block. */
  lemma RetuneCentres(c: Config, t: Table, i: nat)
    requires ValidTable(t) && i < |t|
    ensures var c' := Retune(c, t[i]);
      && c'.channel == t[i].chan && c'.secondary == (if c.secondary != 0 then 1 else 0) && c'.seg1 == 0
      && (c'.ht, c'.vht, c'.width, c'.chanList) == (c.ht, c.vht, c.width, c.chanList)
      && (c.vht && (c.ht || c.secondary == 0) && OnRaster(t[i]) ==>
            5000 + 5 * c'.seg0 as int == t[i].freq + 10 * (NChans(c) - 1))
  {}

  /** Unless no acceptable block can be drawn, set-up leaves a configuration whose block can be used; then, it leaves it alone. */
  lemma HandleLands(c: Config, t: Table, random: Option<nat>)
    requires ValidTable(t) && Running(c, t)
    ensures var c', some := Handle(c, t, random).1, exists i :: 0 <= i < |t| && Acceptable(c, t, i, false);
      && Running(c', t)
      && (random.Some? && some ==> CheckBlock(t, OperatingStart(c', t), NChans(c')).Some?)
      && (random.None? || !some ==> c' == c)
  {
    var pick := ValidChannel(c, t, random, false);
    if CheckBlock(t, OperatingStart(c, t), NChans(c)) == None && pick.Some? {
      RetuneLandsOnBlock(c, t, pick.value);
      AcceptablePasses(c, t, pick.value, false);
    }
  }

  /** Moving to an acceptable block means a band without disabled or unavailable channels, cleared if it was to be. */
  lemma AcceptableInBand(c: Config, t: Table, i: nat, skipRadar: bool)
    requires ValidTable(t) && i < |t| && Acceptable(c, t, i, skipRadar) && OnRaster(t[i])
    ensures var c' := Retune(c, t[i]);
      Running(c', t) && BandUsable(c', t) && (skipRadar ==> BandCleared(c', t))
  {
    var c', n := Retune(c, t[i]), NChans(c);
    RetuneLandsOnBlock(c, t, i);
    RangeIsBlock(t, i, n, skipRadar);
    forall k | 0 <= k < |t| && InBand(c', t[k].freq) ensures ChannelAvailable(t[k], skipRadar) {
      BlockIsBand(c', t, k);
    }
  }

  /**
   hostapd_handle_dfs with its reselection loop: returns the decision, the
   configuration left behind, the CAC time set up, and the number of passes.
   */
  method HandleDfs(c: Config, t: Table, random: Option<nat>)
    returns (d: Decision, c': Config, cacMs: nat, passes: nat)
    requires ValidTable(t) && Configured(c, t)
    ensures passes <= 2 && (d, c') == Handle(c, t, random)
    ensures d == Proceed || d == StartCac ==> Running(c', t) && cacMs == MaxCac(t, OperatingStart(c', t), NChans(c'))
  {
    c', cacMs, passes := c, 0, 0;
    ghost var moved: Option<nat> := None;
    while true
      invariant passes <= 1
      invariant passes == 0 ==> c' == c && moved == None
      invariant passes == 1 ==>
        && moved.Some? && moved == ValidChannel(c, t, random, false) && c' == Retune(c, t[moved.value])
        && StartIdx(c, t).Some? && CheckBlock(t, StartIdx(c, t).value, NChans(c)) == None
      decreases 1 - passes
    {
      if moved.Some? {
        RetuneLandsOnBlock(c, t, moved.value);
        AcceptablePasses(c, t, moved.value, false);
      }
      var start := GetStartChanIdx(c', t);
      if start == None { return Failed, c', cacMs, passes + 1; }
      var s, n := start.value, NChans(c');
      cacMs := GetCacTime(t, s, n);
      var radar := CheckChansRadar(t, s, n);
      if radar == 0 { return Proceed, c', cacMs, passes + 1; }
      var available := CheckChansAvailable(t, s, n);
      if available { return Proceed, c', cacMs, passes + 1; }
      var res := CheckChansUnavailable(t, s, n);
      if res == 0 { break; }
      var channel := GetValidChannel(c', t, random, false);
      if channel == None { return NoChannel, c', cacMs, passes + 1; }
      moved := channel;
      c' := Retune(c', t[channel.value]);
      passes := passes + 1;
    }
    return StartCac, c', cacMs, passes + 1;
  }
}
