/**
 The barrier that starts several interfaces together: an interface whose
 preparation is complete waits until every other flagged interface has
 reported, and the last one to report starts them all.
 */
module SyncStart {

  /** starts counts the times the interface was started through the barrier. */
  datatype Flags = Flags(need: bool, ready: bool, starts: nat) {
    predicate Pending() { need && !ready }
    predicate Waiting() { need && ready }
    function Started(): Flags { this.(need := false, starts := starts + 1) }
  }

  type State = seq<Flags>

  predicate SomePending(s: State) { exists k :: 0 <= k < |s| && s[k].Pending() }

  predicate SomeWaiting(s: State) { exists k :: 0 <= k < |s| && s[k].Waiting() }

  predicate OtherPending(s: State, i: nat) { exists k :: 0 <= k < |s| && k != i && s[k].Pending() }

  function CountPending(s: State, n: nat): nat
    requires n <= |s|
  {
    if n == 0 then 0 else CountPending(s, n - 1) + if s[n - 1].Pending() then 1 else 0
  }

  /** Counting more than one pending interface, its own included, is seeing another one. */
  lemma {:induction false} CountSeesOther(s: State, n: nat, i: nat)
    requires n <= |s| && i < |s| && s[i].Pending()
    ensures CountPending(s, n) > (if i < n then 1 else 0) <==> exists k :: 0 <= k < n && k != i && s[k].Pending()
    ensures i < n ==> CountPending(s, n) >= 1
  {
    if n > 0 { CountSeesOther(s, n - 1, i); }
  }

  /** One interface reports: an error, or that it is ready; cac says its state is that of a finished CAC. */
  datatype Report = Report(i: nat, err: bool, cac: bool)

  function Release(s: State, n: nat): (r: State)
    requires n <= |s|
    ensures |r| == |s|
    ensures forall k :: 0 <= k < |s| ==> r[k] == if k < n && s[k].Waiting() then s[k].Started() else s[k]
  {
    if n == 0 then s
    else
      var r := Release(s, n - 1);
      if r[n - 1].Waiting() then r[n - 1 := r[n - 1].Started()] else r
  }

  /** hostapd_setup_interface_complete */
  function Complete(s: State, e: Report): (r: State)
    ensures |r| == |s|
  {
    if e.i >= |s| || !s[e.i].need then s
    else if e.err then s[e.i := s[e.i].(need := false)]
    else if s[e.i].ready then s
    else if OtherPending(s, e.i) then
      if e.cac then s[e.i := s[e.i].Started()] else s[e.i := s[e.i].(ready := true)]
    else Release(s[e.i := s[e.i].Started()], |s|)
  }

  function Run(s: State, es: seq<Report>): (r: State)
    ensures |r| == |s|
    decreases |es|
  {
    if es == [] then s else Run(Complete(s, es[0]), es[1..])
  }

  // ----- one report -----

  /** The CAC bypass: one interface starts alone while others are still coming up. */
  predicate Bypass(s: State, e: Report) {
    e.cac && OtherPending(s, e.i)
  }

  /**
   Through the barrier an interface starts only together with all the others:
   no interface but the reporting one was still to report, and none is left waiting.
   */
  lemma StartsTogether(s: State, e: Report, j: nat)
    requires j < |s| && Complete(s, e)[j].starts != s[j].starts && !Bypass(s, e)
    ensures e.i < |s| && s[e.i].Pending() && !OtherPending(s, e.i)
    ensures !SomePending(Complete(s, e)) && !SomeWaiting(Complete(s, e))
    ensures forall k :: 0 <= k < |s| ==>
              Complete(s, e)[k].starts == s[k].starts + if s[k].need then 1 else 0
  {}

  /** Interfaces wait although nobody is left to report and start them. */
  predicate Stranded(s: State) {
    SomeWaiting(s) && !SomePending(s)
  }

  /** A report strands the waiting interfaces exactly when it is an error from the last one due. */
  lemma StrandsExactly(s: State, e: Report)
    requires !Stranded(s)
    ensures Stranded(Complete(s, e)) <==>
            e.err && e.i < |s| && s[e.i].Pending() && !OtherPending(s, e.i) && SomeWaiting(s)
  {
    var r := Complete(s, e);
    if e.i < |s| && s[e.i].need {
      if e.err {
        if SomeWaiting(s) && s[e.i].Pending() {
          var w :| 0 <= w < |s| && s[w].Waiting();
          assert r[w].Waiting();
        }
        if OtherPending(s, e.i) {
          var k :| 0 <= k < |s| && k != e.i && s[k].Pending();
          assert r[k].Pending();
        }
      } else if !s[e.i].ready && OtherPending(s, e.i) {
        var k :| 0 <= k < |s| && k != e.i && s[k].Pending();
        assert r[k].Pending();
      }
    }
  }

  /** Stranded interfaces are never started, whatever is reported afterwards. */
  lemma {:induction false} StrandedForGood(s: State, es: seq<Report>)
    requires !SomePending(s)
    ensures forall k :: 0 <= k < |s| ==> Run(s, es)[k].starts == s[k].starts
    decreases |es|
  {
    if es != [] {
      assert forall k :: 0 <= k < |s| ==> !s[k].Pending();
      StrandedForGood(Complete(s, es[0]), es[1..]);
    }
  }

  const PAIR: State := [Flags(true, false, 0), Flags(true, false, 0)]

  /** One of two interfaces waits, the other fails: the first is never started, whatever follows. */
  lemma OneOfTwoStranded(es: seq<Report>)
    ensures Initial(PAIR) && Stranded(Run(PAIR, [Report(0, false, false), Report(1, true, false)]))
    ensures Run(Run(PAIR, [Report(0, false, false), Report(1, true, false)]), es)[0].starts == 0
  {
    var first, second := Report(0, false, false), Report(1, true, false);
    assert PAIR[1].Pending();
    var one := Complete(PAIR, first);
    assert one == [Flags(true, true, 0), Flags(true, false, 0)];
    var two := Complete(one, second);
    assert two == [Flags(true, true, 0), Flags(false, false, 0)];
    assert two[0].Waiting();
    assert [first, second][1..] == [second] && [second][1..] == [];
    assert Run(PAIR, [first, second]) == Run(one, [second]) == Run(two, []) == two;
    StrandedForGood(two, es);
  }

  // ----- error-free runs -----

  predicate Initial(s: State) {
    forall k :: 0 <= k < |s| ==> !s[k].ready && s[k].starts == 0
  }

  predicate ErrorFree(es: seq<Report>) {
    forall k :: 0 <= k < |es| ==> !es[k].err
  }

  /** Flagged interfaces have started once or not yet; nobody is stranded. */
  predicate Inv(init: State, s: State) {
    && |s| == |init| && !Stranded(s)
    && forall k :: 0 <= k < |s| ==>
         if init[k].need then s[k].starts == (if s[k].need then 0 else 1) else s[k] == init[k]
  }

  lemma {:induction false} RunKeepsInv(init: State, s: State, es: seq<Report>)
    requires Inv(init, s) && ErrorFree(es)
    ensures Inv(init, Run(s, es))
    decreases |es|
  {
    if es != [] {
      StrandsExactly(s, es[0]);
      RunKeepsInv(init, Complete(s, es[0]), es[1..]);
    }
  }

  /** The interface has reported at some point of the run. */
  predicate Reports(es: seq<Report>, i: nat) {
    exists k :: 0 <= k < |es| && es[k].i == i
  }

  lemma {:induction false} ReportedIsNotPending(s: State, es: seq<Report>, i: nat)
    requires i < |s|
    ensures Run(s, es)[i].Pending() <==> s[i].Pending() && !Reports(es, i)
    decreases |es|
  {
    if es != [] {
      ReportedIsNotPending(Complete(s, es[0]), es[1..], i);
      assert Reports(es, i) <==> es[0].i == i || Reports(es[1..], i) by {
        assert forall k :: 0 <= k < |es| - 1 ==> es[1..][k] == es[k + 1];
        assert forall k :: 1 <= k < |es| ==> es[k] == es[1..][k - 1];
      }
    }
  }

  /**
   On every error-free run nobody is stranded, nobody starts twice, and once
   every flagged interface has reported each of them has started exactly once.
   */
  lemma EveryoneStartsOnce(init: State, es: seq<Report>)
    requires Initial(init) && ErrorFree(es)
    ensures var s := Run(init, es);
      && (SomeWaiting(s) ==> SomePending(s))
      && (forall k :: 0 <= k < |init| ==> s[k].starts <= 1)
      && ((forall k :: 0 <= k < |init| && init[k].need ==> Reports(es, k)) ==>
            forall k :: 0 <= k < |init| ==> s[k].starts == if init[k].need then 1 else 0)
  {
    RunKeepsInv(init, init, es);
    var s := Run(init, es);
    if forall k :: 0 <= k < |init| && init[k].need ==> Reports(es, k) {
      forall k | 0 <= k < |init| ensures !s[k].Pending() {
        ReportedIsNotPending(init, es, k);
      }
      assert !SomeWaiting(s);
    }
  }

  // ----- runs with errors -----

  /** What a report does to its own interface while another one is still due. */
  function Local(f: Flags, e: Report): Flags {
    if !f.need then f
    else if e.err then f.(need := false)
    else if f.ready then f
    else if e.cac then f.Started()
    else f.(ready := true)
  }

  function LocalRun(f: Flags, es: seq<Report>, k: nat): Flags
    decreases |es|
  {
    if es == [] then f else LocalRun(if es[0].i == k then Local(f, es[0]) else f, es[1..], k)
  }

  predicate Errs(es: seq<Report>, k: nat) {
    exists j :: 0 <= j < |es| && es[j].i == k && es[j].err
  }

  lemma ReportsHead(es: seq<Report>, k: nat)
    requires es != []
    ensures Reports(es, k) <==> es[0].i == k || Reports(es[1..], k)
    ensures Errs(es, k) <==> (es[0].i == k && es[0].err) || Errs(es[1..], k)
  {
    assert forall j :: 0 <= j < |es| - 1 ==> es[1..][j] == es[j + 1];
    assert forall j :: 1 <= j < |es| ==> es[j] == es[1..][j - 1];
  }

  lemma {:induction false} StaysDue(s: State, es: seq<Report>, x: nat)
    requires x < |s| && s[x].Pending() && !Reports(es, x)
    ensures Run(s, es)[x] == s[x]
    decreases |es|
  {
    if es != [] {
      ReportsHead(es, x);
      assert es[0].i < |s| ==> OtherPending(s, es[0].i);
      StaysDue(Complete(s, es[0]), es[1..], x);
    }
  }

  /** As long as interface x is due, the others are affected by their own reports only. */
  lemma {:induction false} OthersOnTheirOwn(s: State, es: seq<Report>, x: nat, k: nat)
    requires x < |s| && k < |s| && k != x && s[x].Pending() && !Reports(es, x)
    ensures Run(s, es)[k] == LocalRun(s[k], es, k)
    decreases |es|
  {
    if es != [] {
      ReportsHead(es, x);
      var t := Complete(s, es[0]);
      assert es[0].i < |s| ==> OtherPending(s, es[0].i);
      assert t[k] == (if es[0].i == k then Local(s[k], es[0]) else s[k]) && t[x] == s[x];
      OthersOnTheirOwn(t, es[1..], x, k);
    }
  }

  function First(es: seq<Report>, k: nat): (p: nat)
    requires Reports(es, k)
    ensures p < |es| && es[p].i == k
    decreases |es|
  {
    ReportsHead(es, k);
    if es[0].i == k then 0 else 1 + First(es[1..], k)
  }

  lemma {:induction false} LocalSettled(f: Flags, es: seq<Report>, k: nat)
    requires !f.Pending()
    ensures LocalRun(f, es, k) == f.(need := f.need && !Errs(es, k))
    decreases |es|
  {
    if es != [] {
      ReportsHead(es, k);
      LocalSettled(if es[0].i == k then Local(f, es[0]) else f, es[1..], k);
    }
  }

  lemma {:induction false} LocalForm(f: Flags, es: seq<Report>, k: nat)
    requires f.Pending() && Reports(es, k)
    ensures var p := First(es, k);
      LocalRun(f, es, k) == if es[p].err then f.(need := false)
                            else if es[p].cac then f.Started()
                            else f.(ready := true, need := !Errs(es[p + 1..], k))
    decreases |es|
  {
    ReportsHead(es, k);
    if es[0].i == k {
      LocalSettled(Local(f, es[0]), es[1..], k);
    } else {
      LocalForm(f, es[1..], k);
      var q := First(es[1..], k);
      assert es[1..][q + 1..] == es[q + 2..];
    }
  }

  /** Report number last is the first one of its interface, and by then every other flagged one has reported. */
  predicate LastDue(init: State, es: seq<Report>, last: nat) {
    && last < |es| && es[last].i < |init| && init[es[last].i].need && !Reports(es[..last], es[last].i)
    && forall j :: 0 <= j < |init| && init[j].need && j != es[last].i ==> Reports(es[..last], j)
  }

  /**
   Interface k is started: for the last one due, if it is ready; for another,
   if its first report is no error and either bypasses after CAC or is followed,
   without an error of its own, by the last one becoming ready.
   */
  predicate IsStarted(init: State, es: seq<Report>, last: nat, k: nat)
    requires LastDue(init, es, last) && k < |init| && init[k].need
  {
    var x, pre := es[last], es[..last];
    if k == x.i then !x.err
    else
      var p := First(pre, k);
      !pre[p].err && (pre[p].cac || (!x.err && !Errs(pre[p + 1..], k)))
  }

  lemma {:induction false} RunAppend(s: State, xs: seq<Report>, ys: seq<Report>)
    ensures Run(s, xs + ys) == Run(Run(s, xs), ys)
    decreases |xs|
  {
    if xs == [] {
      assert xs + ys == ys;
    } else {
      assert (xs + ys)[1..] == xs[1..] + ys;
      RunAppend(Complete(s, xs[0]), xs[1..], ys);
    }
  }

  lemma BeforeTheLast(init: State, es: seq<Report>, last: nat)
    requires Initial(init) && LastDue(init, es, last)
    ensures var s, x := Run(init, es[..last]), es[last];
      && s[x.i] == init[x.i] && !OtherPending(s, x.i)
      && (forall j :: 0 <= j < |s| ==> !Complete(s, x)[j].Pending())
  {
    var s, x := Run(init, es[..last]), es[last];
    forall j | 0 <= j < |init| ensures s[j].Pending() <==> j == x.i {
      ReportedIsNotPending(init, es[..last], j);
    }
    StaysDue(init, es[..last], x.i);
  }

  lemma RunAt(s: State, es: seq<Report>, n: nat)
    requires n < |es|
    ensures Run(s, es) == Run(Complete(Run(s, es[..n]), es[n]), es[n + 1..])
  {
    var rest := es[n..];
    assert es == es[..n] + rest && rest[1..] == es[n + 1..];
    RunAppend(s, es[..n], rest);
  }

  /** After the last one due has reported nobody else is started. */
  lemma SettledAtTheLast(init: State, es: seq<Report>, last: nat, k: nat)
    requires Initial(init) && LastDue(init, es, last) && k < |init|
    ensures Run(init, es)[k].starts == Complete(Run(init, es[..last]), es[last])[k].starts
  {
    RunAt(init, es, last);
    BeforeTheLast(init, es, last);
    StrandedForGood(Complete(Run(init, es[..last]), es[last]), es[last + 1..]);
  }

  /** Which interfaces have started once all flagged ones have reported, errors included; nobody starts twice. */
  lemma StartedExactly(init: State, es: seq<Report>, last: nat, k: nat)
    requires Initial(init) && LastDue(init, es, last) && k < |init|
    ensures Run(init, es)[k].starts == if init[k].need && IsStarted(init, es, last, k) then 1 else 0
  {
    SettledAtTheLast(init, es, last, k);
    BeforeTheLast(init, es, last);
    if k != es[last].i {
      OthersOnTheirOwn(init, es[..last], es[last].i, k);
      if init[k].need { LocalForm(init[k], es[..last], k); } else { LocalSettled(init[k], es[..last], k); }
    }
  }

  /** Once all flagged interfaces have reported, one of them was the last due. */
  lemma {:induction false} SomeLastDue(init: State, es: seq<Report>) returns (last: nat)
    requires exists j :: 0 <= j < |init| && init[j].need
    requires forall j :: 0 <= j < |init| && init[j].need ==> Reports(es, j)
    ensures LastDue(init, es, last)
    decreases |es|
  {
    var n := |es| - 1;
    if forall j :: 0 <= j < |init| && init[j].need ==> Reports(es[..n], j) {
      last := SomeLastDue(init, es[..n]);
      assert es[..n][..last] == es[..last];
    } else {
      last := n;
      var x :| 0 <= x < |init| && init[x].need && !Reports(es[..n], x);
      forall j: nat | Reports(es, j) && j != es[n].i ensures Reports(es[..n], j) {
        var q :| 0 <= q < |es| && es[q].i == j;
        assert es[..n][q] == es[q];
      }
    }
  }

  // ----- the code -----

  class Iface {
    var needToStartInSync: bool
    var readyToStartInSync: bool
    /** Record of the calls of hostapd_setup_interface_complete_sync made for the barrier. */
    var starts: nat

    function Abs(): Flags
      reads this
    {
      Flags(needToStartInSync, readyToStartInSync, starts)
    }

    method StartInSync()
      modifies this`starts
      ensures starts == old(starts) + 1
    {
      starts := starts + 1;
    }
  }

  ghost predicate Distinct(ifaces: seq<Iface>) {
    forall i, j :: 0 <= i < j < |ifaces| ==> ifaces[i] != ifaces[j]
  }

  function AbsOf(ifaces: seq<Iface>): (s: State)
    reads ifaces
    ensures |s| == |ifaces|
    ensures forall k :: 0 <= k < |ifaces| ==> s[k] == ifaces[k].Abs()
  {
    if ifaces == [] then [] else AbsOf(ifaces[..|ifaces| - 1]) + [ifaces[|ifaces| - 1].Abs()]
  }

  method CountNotReady(ifaces: seq<Iface>) returns (n: nat)
    ensures n == CountPending(AbsOf(ifaces), |ifaces|)
  {
    n := 0;
    for i := 0 to |ifaces|
      invariant n == CountPending(AbsOf(ifaces), i)
    {
      if ifaces[i].needToStartInSync && !ifaces[i].readyToStartInSync {
        n := n + 1;
      }
    }
  }

  /** Start everybody who waits. */
  method StartWaiting(ifaces: seq<Iface>)
    requires Distinct(ifaces)
    modifies ifaces
    ensures AbsOf(ifaces) == Release(old(AbsOf(ifaces)), |ifaces|)
  {
    ghost var s := AbsOf(ifaces);
    for i := 0 to |ifaces|
      invariant forall k :: 0 <= k < |ifaces| ==>
        ifaces[k].Abs() == if k < i && s[k].Waiting() then s[k].Started() else s[k]
    {
      if ifaces[i].needToStartInSync && ifaces[i].readyToStartInSync {
        ifaces[i].StartInSync();
        ifaces[i].needToStartInSync := false;
      }
    }
  }

  /** Take one interface out of the barrier and start it. */
  method StartOne(ifaces: seq<Iface>, i: nat)
    requires i < |ifaces| && Distinct(ifaces)
    modifies ifaces[i]
    ensures AbsOf(ifaces) == old(AbsOf(ifaces))[i := old(AbsOf(ifaces))[i].Started()]
  {
    ghost var s := AbsOf(ifaces);
    ifaces[i].needToStartInSync := false;
    ifaces[i].StartInSync();
    assert AbsOf(ifaces) == s[i := s[i].Started()];
  }

  method SetupInterfaceComplete(ifaces: seq<Iface>, i: nat, err: bool, cac: bool)
    requires i < |ifaces| && Distinct(ifaces)
    modifies ifaces
    ensures AbsOf(ifaces) == Complete(old(AbsOf(ifaces)), Report(i, err, cac))
  {
    ghost var s := AbsOf(ifaces);
    var iface := ifaces[i];
    if !iface.needToStartInSync {
      return;
    }
    if err {
      iface.needToStartInSync := false;
      assert AbsOf(ifaces) == s[i := s[i].(need := false)];
      return;
    }
    if iface.readyToStartInSync {
      return;
    }
    var notReady := CountNotReady(ifaces);
    CountSeesOther(s, |s|, i);
    if notReady > 1 && cac {
      StartOne(ifaces, i);
      return;
    }
    if notReady > 1 {
      iface.readyToStartInSync := true;
      assert AbsOf(ifaces) == s[i := s[i].(ready := true)];
      return;
    }
    StartOne(ifaces, i);
    StartWaiting(ifaces);
  }
}
