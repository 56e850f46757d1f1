/**
 Radar, CAC and NOP events: what they do to the interface over a run, and when
 they leave it enabled on a block that has been taken back.
 */
module DfsEvents {
  import opened Bytes
  import opened Dfs
  import opened DfsMarks

  // ----- the interface over a run of events -----

  datatype Phase = Down | Waiting | Enabled

  /**
   hit records that a report took back a radar channel of the block the
   interface was set up on or moved to last.
   */
  datatype State = State(conf: Config, table: Table, phase: Phase, cacStarted: bool, hit: bool)

  /** The random words an event may draw, in the order it draws them. */
  datatype Randoms = Randoms(first: Option<nat>, second: Option<nat>, third: Option<nat>)

  datatype Event =
    | CacStarted
    | CacDone(success: bool, report: Report, rs: Randoms)
    | Radar(report: Report, rs: Randoms, unset: byte)
    | NopFinished(report: Report, rs: Randoms)

  predicate Ready(s: State) {
    ValidTable(s.table) && (s.phase != Down ==> Running(s.conf, s.table))
  }

  /** The radar channels of the block the interface is on are all AVAILABLE. */
  predicate BlockCleared(s: State)
    requires Running(s.conf, s.table)
  {
    RadarCleared(s.table, OperatingStart(s.conf, s.table), NChans(s.conf))
  }

  /** An enabled interface is on a cleared block exactly when that block has not been hit. */
  predicate Sound(s: State) {
    Ready(s) && (s.phase == Enabled ==> (s.hit <==> !BlockCleared(s)))
  }

  /** The DFS gate of hostapd_setup_interface_complete_sync. */
  function Setup(s: State, random: Option<nat>): State
    requires ValidTable(s.table) && Running(s.conf, s.table)
  {
    var (d, c) := Handle(s.conf, s.table, random);
    var phase := match d case Failed => Down case Proceed => Enabled case NoChannel => Waiting case StartCac => Waiting;
    State(c, s.table, phase, false, false)
  }

  /** hostapd_dfs_start_channel_switch with no CSA already in progress. */
  function StartSwitch(s: State, rs: Randoms): State
    requires ValidTable(s.table) && Running(s.conf, s.table)
  {
    if s.cacStarted then
      match ValidChannel(s.conf, s.table, rs.first, false)
      case None => s.(cacStarted := false)
      case Some(i) => MovedSetup(s, i, rs.third)
    else
      match ValidChannel(s.conf, s.table, rs.first, true)
      case Some(i) => s.(conf := Retune(s.conf, s.table[i]), hit := false)
      case None =>
        match ValidChannel(s.conf, s.table, rs.second, false)
        case None => s
        case Some(i) => MovedSetup(s, i, rs.third)
  }

  function MovedSetup(s: State, i: nat, random: Option<nat>): State
    requires ValidTable(s.table) && i < |s.table| && Acceptable(s.conf, s.table, i, false)
  {
    RetuneLandsOnBlock(s.conf, s.table, i);
    AcceptablePasses(s.conf, s.table, i, false);
    Setup(s.(conf := Retune(s.conf, s.table[i])), random)
  }

  predicate BlockConcerned(s: State, r: Report)
    requires Ready(s) && s.phase != Down
  {
    Concerned(s.table, OperatingStart(s.conf, s.table), NChans(s.conf), r)
  }

  predicate BlockOverlapped(s: State, r: Report, unset: byte)
    requires Ready(s) && s.phase != Down
  {
    Overlapped(s.table, OperatingStart(s.conf, s.table), NChans(s.conf), r, unset)
  }

  /** A report takes effect on the table. */
  function Mark(s: State, r: Report, d: DfsState): (m: State)
    requires Ready(s) && s.phase != Down
    ensures Ready(m) && m.conf == s.conf && m.phase == s.phase && m.cacStarted == s.cacStarted
    ensures m.table == Marked(s.table, r, d)
    ensures OperatingStart(m.conf, m.table) == OperatingStart(s.conf, s.table)
  {
    MarkedKeepsTable(s.table, r, d);
    MarkedKeepsStart(s.conf, s.table, r, d);
    s.(table := Marked(s.table, r, d), hit := s.hit || (d != Available && BlockConcerned(s, r)))
  }

  /** hostapd_dfs_radar_detected */
  function RadarStep(s: State, r: Report, rs: Randoms, unset: byte): State
    requires Ready(s) && s.phase != Down
  {
    var m := Mark(s, r, Unavailable);
    if BlockOverlapped(m, r, unset) then StartSwitch(m, rs) else m
  }

  /** hostapd_dfs_nop_finished: the result of the retried set-up is not looked at. */
  function NopStep(s: State, r: Report, rs: Randoms): State
    requires Ready(s) && s.phase != Down
  {
    var m := Mark(s, r, Usable);
    if s.phase == Waiting && !s.cacStarted then m.(conf := Handle(m.conf, m.table, rs.first).1) else m
  }

  /** Events reach the handlers only from a radio that is up. */
  function Step(s: State, e: Event): State
    requires Ready(s)
  {
    if s.phase == Down then s
    else match e
      case CacStarted => s.(cacStarted := true)
      case CacDone(success, r, rs) => if success then Setup(Mark(s, r, Available), rs.first) else s
      case Radar(r, rs, unset) => RadarStep(s, r, rs, unset)
      case NopFinished(r, rs) => NopStep(s, r, rs)
  }

  lemma {:induction false} SameChans(t: Table, u: Table, chan: int, from: nat)
    requires |t| == |u| && forall i :: 0 <= i < |t| ==> t[i].chan == u[i].chan
    ensures Find(ByNumber, t, chan, from) == Find(ByNumber, u, chan, from)
    decreases |t| - from
  {
    if from < |t| { SameChans(t, u, chan, from + 1); }
  }

  lemma MarkedKeepsStart(c: Config, t: Table, r: Report, d: DfsState)
    ensures StartIdx(c, Marked(t, r, d)) == StartIdx(c, t)
  {
    SameChans(t, Marked(t, r, d), StartChan(c), 0);
  }

  lemma SetupSound(s: State, random: Option<nat>)
    requires ValidTable(s.table) && Running(s.conf, s.table)
    ensures Sound(Setup(s, random))
  {
    SetupIsSafe(s.conf, s.table, random);
  }

  /** Taking channels back leaves a block cleared exactly when it was and none of its radar channels is reported. */
  lemma ClearedAfterMark(t: Table, s: nat, n: nat, r: Report, d: DfsState)
    requires Inside(t, s, n) && d != Available
    ensures RadarCleared(Marked(t, r, d), s, n) <==> RadarCleared(t, s, n) && !Concerned(t, s, n, r)
  {
    var u := Marked(t, r, d);
    assert forall i :: s <= i < s + n ==> u[i].radar == t[i].radar && u[i].freq == t[i].freq;
    if RadarCleared(u, s, n) {
      forall i | s <= i < s + n && t[i].radar ensures !r.Covers(t[i].freq) && t[i].dfs == Available {
        assert u[i].radar;
      }
    }
  }

  lemma MarkSound(s: State, r: Report, d: DfsState)
    requires Sound(s) && s.phase != Down && d != Available
    ensures Sound(Mark(s, r, d))
    ensures BlockCleared(Mark(s, r, d)) <==> BlockCleared(s) && !BlockConcerned(s, r)
  {
    ClearedAfterMark(s.table, OperatingStart(s.conf, s.table), NChans(s.conf), r, d);
  }

  lemma MovedSound(s: State, i: nat, random: Option<nat>)
    requires ValidTable(s.table) && i < |s.table| && Acceptable(s.conf, s.table, i, false)
    ensures Sound(MovedSetup(s, i, random)) && !MovedSetup(s, i, random).hit
    ensures MovedSetup(s, i, random).phase != Down
  {
    RetuneLandsOnBlock(s.conf, s.table, i);
    AcceptablePasses(s.conf, s.table, i, false);
    SetupSound(s.(conf := Retune(s.conf, s.table[i])), random);
    SetupIsSafe(Retune(s.conf, s.table[i]), s.table, random);
  }

  // ----- when no other block can be had -----

  predicate NoneAcceptable(s: State, skipRadar: bool) {
    forall i :: 0 <= i < |s.table| ==> !Acceptable(s.conf, s.table, i, skipRadar)
  }

  /** No draw of the channel switch can succeed: for want of a block or of randomness. */
  predicate NoWayOut(s: State, rs: Randoms) {
    if s.cacStarted then rs.first.None? || NoneAcceptable(s, false)
    else (rs.first.None? || NoneAcceptable(s, true)) && (rs.second.None? || NoneAcceptable(s, false))
  }

  lemma DrawFailsExactly(s: State, random: Option<nat>, skipRadar: bool)
    ensures ValidChannel(s.conf, s.table, random, skipRadar) == None
       <==> random.None? || NoneAcceptable(s, skipRadar)
  {}

  /** Without a way out the switch leaves everything but the CAC flag alone; with one it ends on another block. */
  lemma SwitchExactly(s: State, rs: Randoms)
    requires Sound(s) && s.phase != Down
    ensures var s' := StartSwitch(s, rs);
      && Sound(s') && s'.phase != Down
      && (if NoWayOut(s, rs) then s' == s.(cacStarted := false) else !s'.hit)
  {
    DrawFailsExactly(s, rs.first, s.cacStarted == false);
    DrawFailsExactly(s, rs.second, false);
    var f, g, h := ValidChannel(s.conf, s.table, rs.first, false), ValidChannel(s.conf, s.table, rs.first, true),
                   ValidChannel(s.conf, s.table, rs.second, false);
    if s.cacStarted {
      if f.Some? { MovedSound(s, f.value, rs.third); }
    } else if g.Some? {
      RetuneLandsOnBlock(s.conf, s.table, g.value);
      AcceptablePasses(s.conf, s.table, g.value, true);
    } else if h.Some? {
      MovedSound(s, h.value, rs.third);
    }
  }

  // ----- one event -----

  /** The event is a report of radar or of a finished NOP on a radar channel of the block. */
  predicate Strikes(s: State, e: Event)
    requires Ready(s)
  {
    s.phase != Down && (e.Radar? || e.NopFinished?) && BlockConcerned(s, e.report)
  }

  /** The event sets the interface up again or moves it to another block. */
  predicate Escapes(s: State, e: Event)
    requires Ready(s)
  {
    s.phase != Down
    && ((e.CacDone? && e.success)
        || (e.Radar? && BlockOverlapped(s, e.report, e.unset) && !NoWayOut(Mark(s, e.report, Unavailable), e.rs)))
  }

  lemma MarkKeepsOverlap(s: State, r: Report, d: DfsState, unset: byte)
    requires Ready(s) && s.phase != Down
    ensures BlockOverlapped(Mark(s, r, d), r, unset) <==> BlockOverlapped(s, r, unset)
  {
    var m, k, n := Mark(s, r, d), OperatingStart(s.conf, s.table), NChans(s.conf);
    assert forall i :: k <= i < k + n ==> m.table[i].radar == s.table[i].radar && m.table[i].chan == s.table[i].chan;
  }

  lemma RadarSound(s: State, r: Report, rs: Randoms, unset: byte)
    requires Sound(s) && s.phase != Down
    ensures var s' := RadarStep(s, r, rs, unset);
      && Sound(s')
      && (s'.hit <==> (s.hit || BlockConcerned(s, r))
                      && !(BlockOverlapped(s, r, unset) && !NoWayOut(Mark(s, r, Unavailable), rs)))
  {
    MarkSound(s, r, Unavailable);
    MarkKeepsOverlap(s, r, Unavailable, unset);
    SwitchExactly(Mark(s, r, Unavailable), rs);
  }

  lemma NopSound(s: State, r: Report, rs: Randoms)
    requires Sound(s) && s.phase != Down
    ensures Sound(NopStep(s, r, rs)) && (NopStep(s, r, rs).hit <==> s.hit || BlockConcerned(s, r))
  {
    MarkSound(s, r, Usable);
    SetupIsSafe(s.conf, Marked(s.table, r, Usable), rs.first);
  }

  /** Every event keeps the invariant, and hits the block exactly when it strikes without an escape. */
  lemma StepSound(s: State, e: Event)
    requires Sound(s)
    ensures Sound(Step(s, e))
    ensures Step(s, e).hit <==> (s.hit || Strikes(s, e)) && !Escapes(s, e)
  {
    if s.phase != Down {
      match e
      case CacStarted =>
      case CacDone(success, r, rs) => if success { SetupSound(Mark(s, r, Available), rs.first); }
      case Radar(r, rs, unset) => RadarSound(s, r, rs, unset);
      case NopFinished(r, rs) => NopSound(s, r, rs);
    }
  }

  /**
   Radar, for every report and whatever randomness does: the interface ends up
   enabled on a block with a radar channel that is not AVAILABLE exactly when
   its block was or now is hit and it either does not see the overlap or has no
   way out.
   */
  lemma RadarStaysPutExactly(s: State, r: Report, rs: Randoms, unset: byte)
    requires Sound(s) && s.phase == Enabled
    ensures var s' := RadarStep(s, r, rs, unset);
      && Sound(s') && s'.phase != Down
      && (s'.phase == Enabled && !BlockCleared(s')
          <==> (!BlockCleared(s) || BlockConcerned(s, r))
               && (BlockOverlapped(s, r, unset) ==> NoWayOut(Mark(s, r, Unavailable), rs)))
  {
    StepSound(s, Radar(r, rs, unset));
    MarkSound(s, r, Unavailable);
    MarkKeepsOverlap(s, r, Unavailable, unset);
    SwitchExactly(Mark(s, r, Unavailable), rs);
  }

  /**
   For a report whose overlap is judged right, from a cleared block and with
   randomness working: exactly when no acceptable block is left.
   */
  lemma RadarJudgedExactly(s: State, r: Report, rs: Randoms, unset: byte)
    requires Sound(s) && s.phase == Enabled && BlockCleared(s)
    requires (r.InBand() || r.Below()) && rs.first.Some? && rs.second.Some?
    ensures var s' := RadarStep(s, r, rs, unset);
      && Sound(s')
      && (s'.phase == Enabled && !BlockCleared(s')
          <==> BlockConcerned(s, r) && NoneAcceptable(Mark(s, r, Unavailable), false))
  {
    RadarStaysPutExactly(s, r, rs, unset);
    JudgedRightExactly(r);
    assert BlockOverlapped(s, r, unset) <==> BlockConcerned(s, r);
    NoneLooseNoneStrict(Mark(s, r, Unavailable));
  }

  lemma NoneLooseNoneStrict(s: State)
    ensures NoneAcceptable(s, false) ==> NoneAcceptable(s, true)
  {
    forall i | 0 <= i < |s.table| && Acceptable(s.conf, s.table, i, true) ensures Acceptable(s.conf, s.table, i, false) {
      StricterAcceptable(s.conf, s.table, i);
    }
  }

  lemma StricterAcceptable(c: Config, t: Table, i: nat)
    requires i < |t| && Acceptable(c, t, i, true)
    ensures Acceptable(c, t, i, false)
  {
    forall j | 0 <= j < NChans(c)
      ensures var k := Find(ByFreq, t, t[i].freq + j * 20, i); k.Some? && ChannelAvailable(t[k.value], false)
    {
      var k := Find(ByFreq, t, t[i].freq + j * 20, i);
      assert k.Some? && ChannelAvailable(t[k.value], true);
    }
  }

  const LAST_BLOCK: State := State(Config(52, 0, false, false, UseHt, 0, 0, []), ALONE, Enabled, false, false)

  lemma LastBlockConcerned()
    ensures Sound(LAST_BLOCK) && BlockCleared(LAST_BLOCK) && OperatingStart(LAST_BLOCK.conf, LAST_BLOCK.table) == 0
    ensures BlockConcerned(LAST_BLOCK, Report(5260, W20, 0))
  {
    var s, r := LAST_BLOCK, Report(5260, W20, 0);
    assert OperatingStart(s.conf, s.table) == 0 && NChans(s.conf) == 1;
    assert s.table[0].radar && r.Covers(s.table[0].freq) by { assert s.table[0].freq == r.First() + 20 * 0; }
  }

  /** Radar on the only block there is leaves the interface enabled on it, whatever is drawn. */
  lemma RadarOnLastBlock(rs: Randoms)
    ensures Sound(LAST_BLOCK) && BlockCleared(LAST_BLOCK)
    ensures var s' := RadarStep(LAST_BLOCK, Report(5260, W20, 0), rs, 0); s'.phase == Enabled && !BlockCleared(s')
  {
    var r := Report(5260, W20, 0);
    LastBlockConcerned();
    var m := Mark(LAST_BLOCK, r, Unavailable);
    assert m.table[0].dfs == Unavailable && !ChannelAvailable(m.table[0], true) && !ChannelAvailable(m.table[0], false);
    LastBlockBlocked(m, true);
    LastBlockBlocked(m, false);
    RadarStaysPutExactly(LAST_BLOCK, r, rs, 0);
  }

  lemma LastBlockBlocked(s: State, skipRadar: bool)
    requires |s.table| == 1 && !ChannelAvailable(s.table[0], skipRadar)
    ensures NoneAcceptable(s, skipRadar)
  {
    assert s.table[0].freq + 0 * 20 == s.table[0].freq;
    assert Find(ByFreq, s.table, s.table[0].freq + 0 * 20, 0) == Some(0);
  }

  /** The report of a finished NOP takes the block of an enabled interface back exactly when it covers one of its radar channels. */
  lemma NopBreaksExactly(s: State, r: Report, rs: Randoms)
    requires Sound(s) && s.phase == Enabled
    ensures var s' := NopStep(s, r, rs);
      && Sound(s') && s'.phase == Enabled && s'.conf == s.conf
      && (BlockCleared(s') <==> BlockCleared(s) && !BlockConcerned(s, r))
  {
    MarkSound(s, r, Usable);
  }

  /** The end of a NOP on the block it is enabled on takes that block back. */
  lemma NopOnLastBlock(rs: Randoms)
    ensures Sound(LAST_BLOCK) && BlockCleared(LAST_BLOCK)
    ensures var s' := NopStep(LAST_BLOCK, Report(5260, W20, 0), rs); s'.phase == Enabled && !BlockCleared(s')
  {
    LastBlockConcerned();
    NopBreaksExactly(LAST_BLOCK, Report(5260, W20, 0), rs);
  }

  // ----- runs -----

  function Run(s: State, es: seq<Event>): (r: State)
    requires Sound(s)
    ensures Sound(r)
    decreases |es|
  {
    if es == [] then s else (StepSound(s, es[0]); Run(Step(s, es[0]), es[1..]))
  }

  /** The block was struck by event number k, and no event from that one on escaped. */
  ghost predicate StruckAt(s: State, es: seq<Event>, k: nat)
    requires Sound(s) && k < |es|
  {
    Strikes(Run(s, es[..k]), es[k]) && NoEscapeFrom(s, es, k)
  }

  ghost predicate NoEscapeFrom(s: State, es: seq<Event>, k: nat)
    requires Sound(s)
  {
    forall j :: k <= j < |es| ==> !Escapes(Run(s, es[..j]), es[j])
  }

  ghost predicate Struck(s: State, es: seq<Event>)
    requires Sound(s)
  {
    (s.hit && NoEscapeFrom(s, es, 0)) || exists k :: 0 <= k < |es| && StruckAt(s, es, k)
  }

  lemma RunTail(s: State, es: seq<Event>, j: nat)
    requires Sound(s) && 1 <= j <= |es|
    ensures Sound(Step(s, es[0])) && Run(Step(s, es[0]), es[1..][..j - 1]) == Run(s, es[..j])
  {
    StepSound(s, es[0]);
    assert es[..j][1..] == es[1..][..j - 1];
  }

  lemma EscapesShift(s: State, es: seq<Event>, k: nat)
    requires Sound(s) && 1 <= k <= |es|
    ensures Sound(Step(s, es[0]))
    ensures NoEscapeFrom(s, es, k) <==> NoEscapeFrom(Step(s, es[0]), es[1..], k - 1)
  {
    StepSound(s, es[0]);
    var t, rest := Step(s, es[0]), es[1..];
    forall j | 1 <= j < |es|
      ensures Escapes(Run(s, es[..j]), es[j]) <==> Escapes(Run(t, rest[..j - 1]), rest[j - 1])
    {
      RunTail(s, es, j);
    }
    if NoEscapeFrom(s, es, k) {
      forall j | k - 1 <= j < |rest| ensures !Escapes(Run(t, rest[..j]), rest[j]) {
        RunTail(s, es, j + 1);
      }
    }
  }

  lemma StruckShift(s: State, es: seq<Event>, k: nat)
    requires Sound(s) && 1 <= k < |es|
    ensures Sound(Step(s, es[0]))
    ensures StruckAt(s, es, k) <==> StruckAt(Step(s, es[0]), es[1..], k - 1)
  {
    EscapesShift(s, es, k);
    RunTail(s, es, k);
  }

  lemma StruckFirst(s: State, es: seq<Event>)
    requires Sound(s) && es != []
    ensures Sound(Step(s, es[0]))
    ensures (s.hit && NoEscapeFrom(s, es, 0)) || StruckAt(s, es, 0)
       <==> Step(s, es[0]).hit && NoEscapeFrom(Step(s, es[0]), es[1..], 0)
  {
    StepSound(s, es[0]);
    EscapesShift(s, es, 1);
    assert es[..0] == [] && Run(s, es[..0]) == s;
    if !Escapes(s, es[0]) && NoEscapeFrom(s, es, 1) {
      forall j | 0 <= j < |es| ensures !Escapes(Run(s, es[..j]), es[j]) {}
    }
  }

  lemma StruckLater(s: State, es: seq<Event>)
    requires Sound(s) && es != [] && Struck(s, es)
    ensures Sound(Step(s, es[0])) && Struck(Step(s, es[0]), es[1..])
  {
    StruckFirst(s, es);
    if !((s.hit && NoEscapeFrom(s, es, 0)) || StruckAt(s, es, 0)) {
      var k :| 0 <= k < |es| && StruckAt(s, es, k);
      StruckShift(s, es, k);
      assert StruckAt(Step(s, es[0]), es[1..], k - 1);
    }
  }

  lemma StruckEarlier(s: State, es: seq<Event>)
    requires Sound(s) && es != [] && Sound(Step(s, es[0])) && Struck(Step(s, es[0]), es[1..])
    ensures Struck(s, es)
  {
    StruckFirst(s, es);
    var t, rest := Step(s, es[0]), es[1..];
    if !(t.hit && NoEscapeFrom(t, rest, 0)) {
      var k :| 0 <= k < |rest| && StruckAt(t, rest, k);
      StruckShift(s, es, k + 1);
      assert StruckAt(s, es, k + 1);
    }
  }

  /**
   Over every run of events an enabled interface is on a block with a radar
   channel that is not AVAILABLE exactly when a report struck the block and no
   event since then set it up again or moved it.
   */
  lemma {:induction false} RunSound(s: State, es: seq<Event>)
    requires Sound(s)
    ensures Run(s, es).hit <==> Struck(s, es)
    ensures Run(s, es).phase == Enabled ==> (!BlockCleared(Run(s, es)) <==> Struck(s, es))
    decreases |es|
  {
    if es != [] {
      StepSound(s, es[0]);
      if Struck(s, es) { StruckLater(s, es); }
      if Struck(Step(s, es[0]), es[1..]) { StruckEarlier(s, es); }
      RunSound(Step(s, es[0]), es[1..]);
    }
  }

  // ----- disabled channels -----

  /** The block of an enabled interface has no disabled channel, unless it has no radar channel either. */
  predicate NoneDisabled(s: State)
    requires Ready(s)
  {
    s.phase == Enabled ==>
      var k, n := OperatingStart(s.conf, s.table), NChans(s.conf);
      HasRadar(s.table, k, n) ==> AllEnabled(s.table, k, n)
  }

  /** Set-up sees to it, whatever the state before. */
  lemma SetupNoneDisabled(s: State, random: Option<nat>)
    requires ValidTable(s.table) && Running(s.conf, s.table)
    ensures Ready(Setup(s, random)) && NoneDisabled(Setup(s, random))
  {
    SetupIsSafe(s.conf, s.table, random);
  }

  lemma MarkNoneDisabled(s: State, r: Report, d: DfsState)
    requires Ready(s) && s.phase != Down && NoneDisabled(s)
    ensures NoneDisabled(Mark(s, r, d))
  {
    var m := Mark(s, r, d);
    assert forall i :: 0 <= i < |s.table| ==> m.table[i].radar == s.table[i].radar && m.table[i].disabled == s.table[i].disabled;
  }

  /** An immediate switch goes only to blocks without disabled channels. */
  lemma RetunedNoneDisabled(s: State, i: nat)
    requires ValidTable(s.table) && i < |s.table| && Acceptable(s.conf, s.table, i, true)
    ensures var s' := s.(conf := Retune(s.conf, s.table[i]), hit := false); Ready(s') && NoneDisabled(s')
  {
    RetuneLandsOnBlock(s.conf, s.table, i);
    AcceptablePasses(s.conf, s.table, i, true);
    RangeIsBlock(s.table, i, NChans(s.conf), true);
    assert AllEnabled(s.table, i, NChans(s.conf));
  }

  lemma MovedNoneDisabled(s: State, i: nat, random: Option<nat>)
    requires ValidTable(s.table) && i < |s.table| && Acceptable(s.conf, s.table, i, false)
    ensures Ready(MovedSetup(s, i, random)) && NoneDisabled(MovedSetup(s, i, random))
  {
    RetuneLandsOnBlock(s.conf, s.table, i);
    AcceptablePasses(s.conf, s.table, i, false);
    SetupNoneDisabled(s.(conf := Retune(s.conf, s.table[i])), random);
  }

  lemma SwitchNoneDisabled(s: State, rs: Randoms)
    requires Sound(s) && s.phase != Down && NoneDisabled(s)
    ensures Ready(StartSwitch(s, rs)) && NoneDisabled(StartSwitch(s, rs))
  {
    var f, g, h := ValidChannel(s.conf, s.table, rs.first, false), ValidChannel(s.conf, s.table, rs.first, true),
                   ValidChannel(s.conf, s.table, rs.second, false);
    if s.cacStarted {
      if f.Some? { MovedNoneDisabled(s, f.value, rs.third); }
    } else if g.Some? {
      RetunedNoneDisabled(s, g.value);
    } else if h.Some? {
      MovedNoneDisabled(s, h.value, rs.third);
    }
  }

  lemma StepNoneDisabled(s: State, e: Event)
    requires Sound(s) && NoneDisabled(s)
    ensures Sound(Step(s, e)) && NoneDisabled(Step(s, e))
  {
    StepSound(s, e);
    if s.phase != Down {
      match e
      case CacStarted =>
      case CacDone(success, r, rs) => if success { SetupNoneDisabled(Mark(s, r, Available), rs.first); }
      case Radar(r, rs, unset) =>
        MarkSound(s, r, Unavailable);
        MarkNoneDisabled(s, r, Unavailable);
        SwitchNoneDisabled(Mark(s, r, Unavailable), rs);
      case NopFinished(r, rs) => MarkNoneDisabled(s, r, Usable);
    }
  }

  /** Over every run: a block with a radar channel on which the interface is enabled has no disabled channel. */
  lemma {:induction false} RunNoneDisabled(s: State, es: seq<Event>)
    requires Sound(s) && NoneDisabled(s)
    ensures NoneDisabled(Run(s, es))
    decreases |es|
  {
    if es != [] {
      StepNoneDisabled(s, es[0]);
      RunNoneDisabled(Step(s, es[0]), es[1..]);
    }
  }

  const NO_RADAR: State :=
    State(Config(36, 0, false, false, UseHt, 0, 0, []), [Channel(36, 5180, true, false, Unknown, 0)], Waiting, false, false)

  /** Without a radar channel set-up proceeds on a disabled channel: the disabled flag is looked at only behind the radar test. */
  lemma DisabledWithoutRadar(random: Option<nat>)
    ensures ValidTable(NO_RADAR.table) && Running(NO_RADAR.conf, NO_RADAR.table)
    ensures var s := Setup(NO_RADAR, random);
      Sound(s) && s.phase == Enabled && !s.hit && s.table[OperatingStart(s.conf, s.table)].disabled
  {
    assert OperatingStart(NO_RADAR.conf, NO_RADAR.table) == 0;
    SetupSound(NO_RADAR, random);
  }

  /**
   The same in frequencies: on every run, an interface enabled on a block that
   has not been struck has no radar channel in its operating band but AVAILABLE
   ones, and with one there no disabled channel either.
   */
  lemma RunInBand(s: State, es: seq<Event>)
    requires Sound(s) && NoneDisabled(s) && !Struck(s, es) && Run(s, es).phase == Enabled
    requires var r := Run(s, es); OnRaster(r.table[OperatingStart(r.conf, r.table)])
    ensures BandCleared(Run(s, es).conf, Run(s, es).table)
  {
    var r := Run(s, es);
    RunSound(s, es);
    RunNoneDisabled(s, es);
    forall i | 0 <= i < |r.table| && InBand(r.conf, r.table[i].freq)
      ensures OperatingStart(r.conf, r.table) <= i < OperatingStart(r.conf, r.table) + NChans(r.conf)
    {
      BlockIsBand(r.conf, r.table, i);
    }
  }

  // ----- what CAC, NOP and a switch achieve -----

  /** A successful CAC makes exactly the reported radar channels AVAILABLE. */
  lemma CacClears(s: State, r: Report, rs: Randoms, i: nat)
    requires Ready(s) && s.phase != Down && i < |s.table|
    ensures var s' := Step(s, CacDone(true, r, rs));
      && |s'.table| == |s.table|
      && s'.table[i] == if s.table[i].radar && r.Covers(s.table[i].freq) then s.table[i].(dfs := Available) else s.table[i]
  {}

  /** A successful CAC that covers the radar channels of a block without disabled channels enables the interface on it. */
  lemma CacEnables(s: State, r: Report, rs: Randoms)
    requires Ready(s) && s.phase != Down
    requires var k, n := OperatingStart(s.conf, s.table), NChans(s.conf);
      AllEnabled(s.table, k, n) && forall i :: k <= i < k + n && s.table[i].radar ==> r.Covers(s.table[i].freq)
    ensures var s' := Step(s, CacDone(true, r, rs));
      s'.phase == Enabled && s'.conf == s.conf && BlockCleared(s') && !s'.cacStarted && !s'.hit
  {
    var m, k, n := Mark(s, r, Available), OperatingStart(s.conf, s.table), NChans(s.conf);
    forall i | k <= i < k + n
      ensures !m.table[i].disabled && (m.table[i].radar ==> m.table[i].dfs == Available)
    {
      assert m.table[i].radar == s.table[i].radar && m.table[i].disabled == s.table[i].disabled;
    }
  }

  /** While it runs, a CAC changes nothing but the flag, ... */
  lemma CacRuns(s: State)
    requires Ready(s) && s.phase != Down
    ensures var s' := Step(s, CacStarted);
      s'.cacStarted && s'.phase == s.phase && s'.conf == s.conf && s'.table == s.table && s'.hit == s.hit
  {}

  /** ... and a failed one changes nothing. */
  lemma CacFails(s: State, r: Report, rs: Randoms)
    requires Ready(s)
    ensures Step(s, CacDone(false, r, rs)) == s
  {}

  lemma SwitchKeepsTable(s: State, rs: Randoms)
    requires Sound(s) && s.phase != Down
    ensures StartSwitch(s, rs).table == s.table
  {
    if NoWayOut(s, rs) {
      SwitchExactly(s, rs);
    } else {
      var i := SwitchLands(s, rs);
    }
  }

  /** What radar is reported on is UNAVAILABLE, and nothing else of the table changes, whatever becomes of the interface. */
  lemma RadarTakes(s: State, r: Report, rs: Randoms, unset: byte, i: nat)
    requires Sound(s) && s.phase != Down && i < |s.table|
    ensures var s' := Step(s, Radar(r, rs, unset));
      && |s'.table| == |s.table|
      && s'.table[i] == if s.table[i].radar && r.Covers(s.table[i].freq) then s.table[i].(dfs := Unavailable) else s.table[i]
  {
    MarkSound(s, r, Unavailable);
    SwitchKeepsTable(Mark(s, r, Unavailable), rs);
  }

  /** What a finished NOP reports is USABLE again, and nothing else of the table changes. */
  lemma NopFrees(s: State, r: Report, rs: Randoms, i: nat)
    requires Ready(s) && s.phase != Down && i < |s.table|
    ensures var s' := Step(s, NopFinished(r, rs));
      && |s'.table| == |s.table| && s'.phase == s.phase && s'.cacStarted == s.cacStarted
      && s'.table[i] == if s.table[i].radar && r.Covers(s.table[i].freq) then s.table[i].(dfs := Usable) else s.table[i]
  {}

  /**
   A waiting interface without CAC is then configured for a block without
   disabled or unavailable channels if there is one to be had at all; otherwise,
   and in any other phase, the configuration stays.
   */
  lemma NopReconfigures(s: State, r: Report, rs: Randoms)
    requires Ready(s) && s.phase != Down && rs.first.Some?
    ensures var s' := Step(s, NopFinished(r, rs));
      && Ready(s')
      && (s.phase == Waiting && !s.cacStarted && !NoneAcceptable(Mark(s, r, Usable), false) ==>
            CheckBlock(s'.table, OperatingStart(s'.conf, s'.table), NChans(s'.conf)).Some?)
      && (s.phase == Enabled || s.cacStarted || NoneAcceptable(Mark(s, r, Usable), false) ==> s'.conf == s.conf)
  {
    var m := Mark(s, r, Usable);
    HandleLands(m.conf, m.table, rs.first);
  }

  /** s' is s moved to the acceptable block at i: at once, or through set-up. */
  predicate LandsOn(s: State, s': State, i: nat, now: bool) {
    && i < |s.table| && Acceptable(s.conf, s.table, i, now)
    && s'.table == s.table && s'.conf == Retune(s.conf, s.table[i]) && Running(s'.conf, s'.table)
    && if now then s'.phase == s.phase && BlockCleared(s')
       else s'.phase == if BlockCleared(s') then Enabled else Waiting
  }

  /**
   A switch with a way out lands on an acceptable block: without delay on a
   cleared one if CAC is not running and there is one, else through the set-up
   that starts CAC on it or finds it cleared.
   */
  lemma SwitchLands(s: State, rs: Randoms) returns (i: nat)
    requires Sound(s) && s.phase != Down && !NoWayOut(s, rs)
    ensures LandsOn(s, StartSwitch(s, rs), i, !s.cacStarted && rs.first.Some? && !NoneAcceptable(s, true))
  {
    DrawFailsExactly(s, rs.first, s.cacStarted == false);
    DrawFailsExactly(s, rs.second, false);
    if s.cacStarted {
      i := ValidChannel(s.conf, s.table, rs.first, false).value;
      MovedLands(s, i, rs.third);
    } else if ValidChannel(s.conf, s.table, rs.first, true).Some? {
      i := ValidChannel(s.conf, s.table, rs.first, true).value;
      RetunedLands(s, i);
    } else {
      i := ValidChannel(s.conf, s.table, rs.second, false).value;
      MovedLands(s, i, rs.third);
    }
  }

  lemma RetunedLands(s: State, i: nat)
    requires ValidTable(s.table) && i < |s.table| && Acceptable(s.conf, s.table, i, true)
    ensures LandsOn(s, s.(conf := Retune(s.conf, s.table[i]), hit := false), i, true)
  {
    RetuneLandsOnBlock(s.conf, s.table, i);
    AcceptablePasses(s.conf, s.table, i, true);
  }

  lemma MovedLands(s: State, i: nat, random: Option<nat>)
    requires ValidTable(s.table) && i < |s.table| && Acceptable(s.conf, s.table, i, false)
    ensures LandsOn(s, MovedSetup(s, i, random), i, false)
  {
    RetuneLandsOnBlock(s.conf, s.table, i);
    AcceptablePasses(s.conf, s.table, i, false);
    ClearedProceeds(s.table, i, NChans(s.conf));
  }

  /** Of a block without unavailable channels, set-up asks for CAC exactly if it is not cleared. */
  lemma ClearedProceeds(t: Table, i: nat, n: nat)
    requires Inside(t, i, n) && !SomeUnavailable(t, i, n)
    ensures CheckBlock(t, i, n) == Some(if RadarCleared(t, i, n) then Proceed else StartCac)
  {}

  // ----- the retry whose result is ignored -----

  /** The retry would be ready to proceed exactly on a block that passes, or when it may leave it for a cleared one. */
  lemma RetryProceedsExactly(c: Config, t: Table, random: Option<nat>)
    requires ValidTable(t) && Running(c, t)
    ensures var own, pick := CheckBlock(t, OperatingStart(c, t), NChans(c)), ValidChannel(c, t, random, false);
      Handle(c, t, random).0 == Proceed
      <==> own == Some(Proceed) || (own == None && pick.Some? && Acceptable(c, t, pick.value, true))
  {
    var own, pick := CheckBlock(t, OperatingStart(c, t), NChans(c)), ValidChannel(c, t, random, false);
    if own == None && pick.Some? {
      PassesExactly(c, t, pick.value);
    }
  }

  /** An acceptable block passes without CAC exactly when it is acceptable to the stricter search too. */
  lemma PassesExactly(c: Config, t: Table, i: nat)
    requires ValidTable(t) && i < |t| && Acceptable(c, t, i, false)
    ensures Inside(t, i, NChans(c))
    ensures Acceptable(c, t, i, true) <==> CheckBlock(t, i, NChans(c)) == Some(Proceed)
    ensures !Acceptable(c, t, i, true) <==> CheckBlock(t, i, NChans(c)) == Some(StartCac)
  {
    AcceptablePasses(c, t, i, false);
    RangeIsBlock(t, i, NChans(c), false);
    RangeIsBlock(t, i, NChans(c), true);
  }

  /** Waiting, the own block not cleared, and no block to be had without CAC. */
  predicate Stuck(s: State) {
    && Ready(s) && s.phase == Waiting && NoneAcceptable(s, true)
    && CheckBlock(s.table, OperatingStart(s.conf, s.table), NChans(s.conf)) != Some(Proceed)
  }

  lemma GaveUpMeans(c: Config, t: Table, random: Option<nat>)
    requires ValidTable(t) && Running(c, t) && Handle(c, t, random).0 == NoChannel
    ensures CheckBlock(t, OperatingStart(c, t), NChans(c)) == None && ValidChannel(c, t, random, false) == None
  {
    var pick := ValidChannel(c, t, random, false);
    if pick.Some? { AcceptablePasses(c, t, pick.value, false); }
  }

  /** Set-up that gave up with randomness working is stuck. */
  lemma GaveUpIsStuck(s: State, random: Option<nat>)
    requires Ready(s) && s.phase == Waiting && random.Some? && Handle(s.conf, s.table, random).0 == NoChannel
    ensures Stuck(s)
  {
    GaveUpMeans(s.conf, s.table, random);
    DrawFailsExactly(s, random, false);
    NoneLooseNoneStrict(s);
  }

  lemma BlockBeforeMark(t: Table, i: nat, n: nat, r: Report, d: DfsState)
    requires d != Available && Contiguous(Marked(t, r, d), i, n) && BlockAvailable(Marked(t, r, d), i, n, true)
    ensures Contiguous(t, i, n) && BlockAvailable(t, i, n, true)
  {
    var u := Marked(t, r, d);
    forall k | 0 <= k < n ensures t[i + k].freq == t[i].freq + 20 * k {
      assert u[i + k].freq == u[i].freq + 20 * k;
    }
    forall k | i <= k < i + n ensures ChannelAvailable(t[k], true) {
      assert ChannelAvailable(u[k], true);
    }
  }

  lemma StricterBeforeMark(c: Config, t: Table, i: nat, r: Report, d: DfsState)
    requires ValidTable(t) && i < |t| && d != Available && Acceptable(c, Marked(t, r, d), i, true)
    ensures Acceptable(c, t, i, true)
  {
    MarkedKeepsTable(t, r, d);
    RangeIsBlock(Marked(t, r, d), i, NChans(c), true);
    BlockBeforeMark(t, i, NChans(c), r, d);
    RangeIsBlock(t, i, NChans(c), true);
    assert Marked(t, r, d)[i].chan == t[i].chan;
  }

  lemma BlockedAfterMark(t: Table, s: nat, n: nat, r: Report, d: DfsState)
    requires ValidTable(t) && Inside(t, s, n) && d != Available && CheckBlock(t, s, n) != Some(Proceed)
    ensures CheckBlock(Marked(t, r, d), s, n) != Some(Proceed)
  {
    var u := Marked(t, r, d);
    var k :| s <= k < s + n && t[k].radar;
    assert u[k].radar;
    var j :| s <= j < s + n && (t[j].disabled || (t[j].radar && t[j].dfs != Available));
    assert u[j].disabled || (u[j].radar && u[j].dfs != Available);
  }

  lemma StuckAfterMark(s: State, r: Report, d: DfsState)
    requires Stuck(s) && d != Available
    ensures Stuck(Mark(s, r, d))
  {
    var m := Mark(s, r, d);
    forall i | 0 <= i < |m.table| && Acceptable(m.conf, m.table, i, true) ensures Acceptable(s.conf, s.table, i, true) {
      StricterBeforeMark(s.conf, s.table, i, r, d);
    }
    BlockedAfterMark(s.table, OperatingStart(s.conf, s.table), NChans(s.conf), r, d);
  }

  lemma StuckAfterMove(s: State, i: nat)
    requires Stuck(s) && i < |s.table| && Acceptable(s.conf, s.table, i, false)
    ensures Stuck(s.(conf := Retune(s.conf, s.table[i])))
    ensures CheckBlock(s.table, i, NChans(s.conf)) == Some(StartCac)
  {
    var t := s.(conf := Retune(s.conf, s.table[i]));
    RetuneLandsOnBlock(s.conf, s.table, i);
    PassesExactly(s.conf, s.table, i);
    forall k | 0 <= k < |t.table| && Acceptable(t.conf, t.table, k, true) ensures Acceptable(s.conf, s.table, k, true) {}
  }

  /** From a stuck state the retry gives up or asks for CAC, and stays stuck. */
  lemma StuckRetry(s: State, random: Option<nat>)
    requires Stuck(s)
    ensures var (d, c) := Handle(s.conf, s.table, random);
      (d == NoChannel || d == StartCac) && Stuck(s.(conf := c))
  {
    var pick := ValidChannel(s.conf, s.table, random, false);
    if pick.Some? { StuckAfterMove(s, pick.value); }
  }

  lemma StuckSwitch(s: State, rs: Randoms)
    requires Stuck(s)
    ensures Stuck(StartSwitch(s, rs))
  {
    var f, h := ValidChannel(s.conf, s.table, rs.first, false), ValidChannel(s.conf, s.table, rs.second, false);
    DrawFailsExactly(s, rs.first, true);
    if s.cacStarted {
      if f.Some? { StuckMovedSetup(s, f.value, rs.third); }
    } else if h.Some? {
      StuckMovedSetup(s, h.value, rs.third);
    }
  }

  lemma StuckMovedSetup(s: State, i: nat, random: Option<nat>)
    requires Stuck(s) && i < |s.table| && Acceptable(s.conf, s.table, i, false)
    ensures Stuck(MovedSetup(s, i, random))
  {
    RetuneLandsOnBlock(s.conf, s.table, i);
    StuckAfterMove(s, i);
    StuckRetry(s.(conf := Retune(s.conf, s.table[i])), random);
  }

  lemma StuckStep(s: State, e: Event)
    requires Stuck(s) && !(e.CacDone? && e.success)
    ensures Stuck(Step(s, e))
  {
    match e
    case CacStarted =>
    case CacDone(_, _, _) =>
    case Radar(r, rs, unset) =>
      StuckAfterMark(s, r, Unavailable);
      StuckSwitch(Mark(s, r, Unavailable), rs);
    case NopFinished(r, rs) =>
      StuckAfterMark(s, r, Usable);
      StuckRetry(Mark(s, r, Usable), rs.first);
  }

  lemma {:induction false} StuckRun(s: State, es: seq<Event>)
    requires Sound(s) && Stuck(s) && forall k :: 0 <= k < |es| ==> !(es[k].CacDone? && es[k].success)
    ensures Stuck(Run(s, es))
    decreases |es|
  {
    if es != [] {
      StuckStep(s, es[0]);
      StepSound(s, es[0]);
      StuckRun(Step(s, es[0]), es[1..]);
    }
  }

  /**
   After set-up has given up, and whatever radar and NOP reports follow until a
   CAC completes, the retry never finds itself ready to proceed: that its result
   is ignored loses nothing.
   */
  lemma NopRetryNeverProceeds(s: State, before: Option<nat>, es: seq<Event>, r: Report, random: Option<nat>)
    requires Sound(s) && s.phase == Waiting && before.Some? && Handle(s.conf, s.table, before).0 == NoChannel
    requires forall k :: 0 <= k < |es| ==> !(es[k].CacDone? && es[k].success)
    ensures var w := Run(s, es);
      && w.phase == Waiting
      && (var m := Mark(w, r, Usable);
          Handle(m.conf, m.table, random).0 == NoChannel || Handle(m.conf, m.table, random).0 == StartCac)
  {
    GaveUpIsStuck(s, before);
    StuckRun(s, es);
    StuckAfterMark(Run(s, es), r, Usable);
    StuckRetry(Mark(Run(s, es), r, Usable), random);
  }

  // ----- the handlers on the interface object -----

  class DfsIface {
    var conf: Config
    const channels: array<Channel>
    var phase: Phase
    var cacStarted: bool
    ghost var hit: bool

    constructor (conf: Config, channels: array<Channel>)
      ensures this.conf == conf && this.channels == channels && phase == Waiting && !cacStarted && !hit
    {
      this.conf, this.channels, phase, cacStarted, hit := conf, channels, Waiting, false, false;
    }

    ghost function Abs(): State
      reads this, channels
    {
      State(conf, channels[..], phase, cacStarted, hit)
    }

    method SetupComplete(random: Option<nat>)
      requires ValidTable(channels[..]) && Running(conf, channels[..])
      modifies this
      ensures Abs() == Setup(old(Abs()), random)
    {
      cacStarted := false;
      var d, c, _, _ := HandleDfs(conf, channels[..], random);
      conf := c;
      match d {
        case Failed => phase := Down;
        case Proceed => phase := Enabled;
        case NoChannel => phase := Waiting;
        case StartCac => phase := Waiting;
      }
      hit := false;
    }

    method Retuned(i: nat)
      requires ValidTable(channels[..]) && i < channels.Length
      modifies this`conf
      ensures conf == Retune(old(conf), channels[i])
    {
      var channel := channels[i];
      var secondary := if conf.secondary != 0 then 1 else 0;
      var seg0 := CenterSeg0(conf, channel, secondary);
      conf := conf.(channel := channel.chan, secondary := secondary, seg0 := seg0, seg1 := 0);
    }

    /** Move to the block at i and set the interface up again. */
    method MoveAndSetup(i: nat, random: Option<nat>)
      requires ValidTable(channels[..]) && i < channels.Length && Acceptable(conf, channels[..], i, false)
      modifies this
      ensures Abs() == MovedSetup(old(Abs()), i, random)
    {
      RetuneLandsOnBlock(conf, channels[..], i);
      AcceptablePasses(conf, channels[..], i, false);
      Retuned(i);
      SetupComplete(random);
    }

    method StartChannelSwitch(rs: Randoms)
      requires ValidTable(channels[..]) && Running(conf, channels[..])
      modifies this
      ensures Abs() == StartSwitch(old(Abs()), rs)
    {
      if cacStarted {
        var channel := GetValidChannel(conf, channels[..], rs.first, false);
        cacStarted := false;
        if channel == None {
          return;
        }
        MoveAndSetup(channel.value, rs.third);
        return;
      }
      var now := GetValidChannel(conf, channels[..], rs.first, true);
      if now == None {
        var later := GetValidChannel(conf, channels[..], rs.second, false);
        if later == None {
          return;
        }
        MoveAndSetup(later.value, rs.third);
        return;
      }
      Retuned(now.value);
      hit := false;
    }

    /** Mark the channels of a report, and record when one of the own block is taken back. */
    method TakeReport(r: Report, state: DfsState)
      requires Ready(Abs()) && phase != Down
      modifies this`hit, channels
      ensures Abs() == Mark(old(Abs()), r, state)
    {
      ghost var m := Mark(Abs(), r, state);
      var _ := SetDfsState(channels, r, state);
      hit := m.hit;
    }

    method RadarDetected(r: Report, rs: Randoms, unset: byte)
      requires Ready(Abs()) && phase != Down
      modifies this, channels
      ensures Abs() == RadarStep(old(Abs()), r, rs, unset)
    {
      TakeReport(r, Unavailable);
      var res := AreChannelsOverlapped(conf, channels[..], r, unset);
      if res == 0 { return; }
      StartChannelSwitch(rs);
    }

    method NopDone(r: Report, rs: Randoms)
      requires Ready(Abs()) && phase != Down
      modifies this, channels
      ensures Abs() == NopStep(old(Abs()), r, rs)
    {
      TakeReport(r, Usable);
      if phase == Waiting && !cacStarted {
        var _, c, _, _ := HandleDfs(conf, channels[..], rs.first);
        conf := c;
      }
    }

    method CompleteCac(success: bool, r: Report, rs: Randoms)
      requires Ready(Abs()) && phase != Down
      modifies this, channels
      ensures Abs() == Step(old(Abs()), CacDone(success, r, rs))
    {
      if success {
        TakeReport(r, Available);
        cacStarted := false;
        SetupComplete(rs.first);
      }
    }
  }
}
