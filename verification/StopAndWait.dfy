/**
 The client's stop-and-wait transmission of one message to one access point,
 over a channel that may lose, repeat and delay both probe requests and
 acknowledgements.
 */
module StopAndWait {
  import opened Bytes
  import opened Elements
  import opened ProbeStuffing

  const RETRIES: nat := 4

  /** pre and post are the elements the kernel puts around the stuffed ones. */
  datatype Config = Config(msg: seq<byte>, guaranteed: bool, stamp: Stamp, pre: seq<Elem>, post: seq<Elem>) {
    predicate Valid() {
      NulFree(msg) && |msg| <= INT_MAX && stamp.Valid() && Surroundings(pre) && Surroundings(post)
    }
  }

  datatype Phase = Sending | Complete | ScanGaveUp | AckGaveUp

  /** The client's local variables; ackSeq is None for the initial -1. */
  datatype Sender = Sender(phase: Phase, seqNum: nat, stuffed: nat, scanRetries: nat, ackRetries: nat,
                           ackSeq: Option<nat>, frame: seq<byte>)

  function FrameOf(c: Config, s: nat): seq<byte>
    requires c.Valid() && s < NFrames(c.msg)
  {
    Frame(s, c.stamp, MoreFragments(c.msg, s), Payload(c.msg, s))
  }

  /** What the access point should log for frame s. */
  function Expected(c: Config, s: nat): Received
    requires s < NFrames(c.msg)
  {
    Received(s, c.stamp.Text(), MoreFragments(c.msg, s), Payload(c.msg, s))
  }

  predicate AtHead(c: Config, tx: Sender) {
    && tx.seqNum <= NFrames(c.msg)
    && tx.stuffed == Min(tx.seqNum * MAX_DATA, |c.msg|)
    && 0 < tx.scanRetries <= RETRIES && 0 < tx.ackRetries <= RETRIES
  }

  predicate Good(c: Config, tx: Sender)
    requires c.Valid()
  {
    match tx.phase
    case Sending =>
      && tx.seqNum < NFrames(c.msg)
      && tx.stuffed == Min((tx.seqNum + 1) * MAX_DATA, |c.msg|)
      && 0 < tx.scanRetries <= RETRIES && 0 < tx.ackRetries <= RETRIES
      && tx.frame == FrameOf(c, tx.seqNum)
    case Complete => tx.seqNum == NFrames(c.msg) && tx.stuffed == |c.msg|
    case ScanGaveUp => tx.seqNum < NFrames(c.msg) && tx.scanRetries == 0
    case AckGaveUp => tx.seqNum < NFrames(c.msg) && tx.ackRetries == 0 && c.guaranteed
  }

  lemma FrameCount(msg: seq<byte>, s: nat)
    ensures s < NFrames(msg) <==> s * MAX_DATA < |msg|
    ensures s + 1 < NFrames(msg) <==> (s + 1) * MAX_DATA < |msg|
  {}

  /** What is cut out at the bytes-stuffed counter is the payload of frame s, and tells whether it is the last one. */
  lemma CutIsPayload(msg: seq<byte>, s: nat, stuffed: nat)
    requires s < NFrames(msg) && stuffed == Min(s * MAX_DATA, |msg|)
    ensures stuffed == s * MAX_DATA < |msg|
    ensures if |msg| - stuffed > MAX_DATA
            then MoreFragments(msg, s) == 1 && Payload(msg, s) == msg[stuffed..stuffed + MAX_DATA]
                 && Min((s + 1) * MAX_DATA, |msg|) == stuffed + MAX_DATA
            else MoreFragments(msg, s) == 0 && Payload(msg, s) == msg[stuffed..]
                 && Min((s + 1) * MAX_DATA, |msg|) == |msg|
  {
    FrameCount(msg, s);
  }

  /** Payload and frame number s, cut out of the message at the bytes-stuffed counter. */
  function CutFrame(c: Config, s: nat, stuffed: nat): (r: (nat, seq<byte>))
    requires c.Valid() && s < NFrames(c.msg) && stuffed == Min(s * MAX_DATA, |c.msg|)
    ensures r.0 == Min((s + 1) * MAX_DATA, |c.msg|) && r.1 == FrameOf(c, s)
  {
    CutIsPayload(c.msg, s, stuffed);
    if |c.msg| - stuffed > MAX_DATA then
      (stuffed + MAX_DATA, Frame(s, c.stamp, 1, c.msg[stuffed..stuffed + MAX_DATA]))
    else
      (|c.msg|, Frame(s, c.stamp, 0, c.msg[stuffed..]))
  }

  /** Head of the outer loop: cut the next frame out of the message, or stop. */
  function NextFrame(c: Config, tx: Sender): (r: Sender)
    requires c.Valid() && AtHead(c, tx)
    ensures Good(c, r) && r.seqNum == tx.seqNum && r.ackSeq == tx.ackSeq
    ensures r.scanRetries == tx.scanRetries && r.ackRetries == tx.ackRetries
    ensures r.phase == if tx.seqNum < NFrames(c.msg) then Sending else Complete
  {
    FrameCount(c.msg, tx.seqNum);
    if tx.stuffed >= |c.msg| then tx.(phase := Complete)
    else
      var (stuffed, frame) := CutFrame(c, tx.seqNum, tx.stuffed);
      tx.(phase := Sending, stuffed := stuffed, frame := frame)
  }

  /** What the kernel and the scan dump report for one transmission. */
  datatype Scan = ScanFailed | ReadError(dump: seq<seq<byte>>) | ReadOk(dump: seq<seq<byte>>)

  /** get_ack called once per entry of the scan dump. */
  function AckInDump(dump: seq<seq<byte>>, ack: Option<nat>): Option<nat> {
    if dump == [] then ack else AckInDump(dump[1..], AckIn(dump[0], ack))
  }

  /** The frame was not acknowledged. */
  function Unacknowledged(c: Config, tx: Sender): (r: Sender)
    requires c.Valid() && Good(c, tx) && tx.phase == Sending && tx.scanRetries == RETRIES
    ensures Good(c, r)
  {
    if c.guaranteed then
      if tx.ackRetries > 1 then tx.(ackRetries := tx.ackRetries - 1)
      else tx.(ackRetries := 0, phase := AckGaveUp)
    else
      NextFrame(c, tx.(seqNum := tx.seqNum + 1))
  }

  /** One turn of the inner loop, together with the checks after it. */
  function ScanStep(c: Config, tx: Sender, scan: Scan): (r: Sender)
    requires c.Valid() && Good(c, tx) && tx.phase == Sending
    ensures Good(c, r)
  {
    match scan
    case ScanFailed =>
      if tx.scanRetries > 1 then tx.(scanRetries := tx.scanRetries - 1)
      else tx.(scanRetries := 0, phase := ScanGaveUp)
    case ReadError(dump) =>
      Unacknowledged(c, tx.(scanRetries := RETRIES, ackSeq := AckInDump(dump, tx.ackSeq)))
    case ReadOk(dump) =>
      var t := tx.(scanRetries := RETRIES, ackSeq := AckInDump(dump, tx.ackSeq));
      if t.ackSeq != Some(t.seqNum) then Unacknowledged(c, t)
      else NextFrame(c, t.(seqNum := t.seqNum + 1, ackRetries := RETRIES))
  }

  // ----- sender, channel and access point together -----

  /**
   sent: every frame put on the air so far. log: what the access point has
   decoded, in order. acks: every acknowledgement number ever issued, together
   with those left over from before this message.
   */
  datatype World = World(tx: Sender, sent: seq<seq<byte>>, log: seq<Received>, acks: set<nat>)

  /** The channel hands over any of the frames sent so far, any number of times. */
  datatype Outcome = Outcome(delivered: seq<nat>, scan: Scan)

  function Delivered(c: Config, sent: seq<seq<byte>>, which: seq<nat>): seq<Received>
    requires c.Valid()
  {
    if which == [] then []
    else
      var rest := Delivered(c, sent, which[1..]);
      if which[0] >= |sent| then rest
      else
        match ApReceive(OnAir(c.pre, sent[which[0]], c.post))
        case None => rest
        case Some(r) => [r] + rest
  }

  function AcksOf(log: seq<Received>): set<nat> {
    set r | r in log :: r.seqNum
  }

  /** The access point's side of a transmission: decode, log and acknowledge. */
  function OnAirStep(c: Config, w: World, o: Outcome): World
    requires c.Valid()
  {
    var sent := w.sent + [w.tx.frame];
    var got := Delivered(c, sent, o.delivered);
    w.(sent := sent, log := w.log + got, acks := w.acks + AcksOf(got))
  }

  function Step(c: Config, w: World, o: Outcome): (r: World)
    requires c.Valid() && Good(c, w.tx) && w.tx.phase == Sending
    ensures Good(c, r.tx)
  {
    OnAirStep(c, w, o).(tx := ScanStep(c, w.tx, o.scan))
  }

  function Run(c: Config, w: World, os: seq<Outcome>): (r: World)
    requires c.Valid() && Good(c, w.tx)
    ensures Good(c, r.tx)
    decreases |os|
  {
    if os == [] || w.tx.phase != Sending then w else Run(c, Step(c, w, os[0]), os[1..])
  }

  function Init(c: Config, leftover: set<nat>): (r: World)
    requires c.Valid()
    ensures Good(c, r.tx)
  {
    World(NextFrame(c, Sender(Sending, 0, 0, RETRIES, RETRIES, None, [])), [], [], leftover)
  }

  function DumpOf(scan: Scan): seq<seq<byte>> {
    if scan == ScanFailed then [] else scan.dump
  }

  /** Every acknowledgement read from the dump was issued by the access point at some time. */
  ghost predicate HonestOutcome(c: Config, w: World, o: Outcome)
    requires c.Valid()
  {
    forall b :: b in DumpOf(o.scan) ==>
      AckIn(b, None).Some? ==> AckIn(b, None).value in OnAirStep(c, w, o).acks
  }

  ghost predicate Honest(c: Config, w: World, os: seq<Outcome>)
    requires c.Valid() && Good(c, w.tx)
    decreases |os|
  {
    os == [] || w.tx.phase != Sending ||
    (HonestOutcome(c, w, os[0]) && Honest(c, Step(c, w, os[0]), os[1..]))
  }

  // ----- invariant -----

  predicate HasFrame(log: seq<Received>, s: nat) {
    exists k :: 0 <= k < |log| && log[k].seqNum == s
  }

  ghost predicate IsFrame(c: Config, f: seq<byte>)
    requires c.Valid()
  {
    exists s: nat :: s < NFrames(c.msg) && f == FrameOf(c, s)
  }

  /** The log holds nothing but the sender's own slices. */
  predicate Genuine(c: Config, log: seq<Received>) {
    forall k :: 0 <= k < |log| ==> log[k].seqNum < NFrames(c.msg) && log[k] == Expected(c, log[k].seqNum)
  }

  /** No acknowledgement left over from before could be taken for one of this message. */
  predicate NoneStale(c: Config, leftover: set<nat>) {
    forall a :: a in leftover ==> a >= NFrames(c.msg)
  }

  ghost predicate Inv(c: Config, leftover: set<nat>, w: World)
    requires c.Valid()
  {
    && Good(c, w.tx)
    && (forall i :: 0 <= i < |w.sent| ==> IsFrame(c, w.sent[i]))
    && Genuine(c, w.log)
    && (forall a :: a in w.acks ==> a in leftover || HasFrame(w.log, a))
    && (w.tx.ackSeq.Some? ==> w.tx.ackSeq.value in w.acks)
    && (c.guaranteed && NoneStale(c, leftover) ==>
          forall s: nat :: s < w.tx.seqNum ==> HasFrame(w.log, s))
  }

  lemma FrameIsReceived(c: Config, f: seq<byte>)
    requires c.Valid() && IsFrame(c, f)
    ensures var r := ApReceive(OnAir(c.pre, f, c.post));
      r.Some? && r.value.seqNum < NFrames(c.msg) && r.value == Expected(c, r.value.seqNum)
  {
    var s: nat :| s < NFrames(c.msg) && f == FrameOf(c, s);
    FrameRoundTrip(s, c.stamp, MoreFragments(c.msg, s), Payload(c.msg, s), c.pre, c.post);
  }

  lemma {:induction false} DeliveredGenuine(c: Config, sent: seq<seq<byte>>, which: seq<nat>)
    requires c.Valid() && forall i :: 0 <= i < |sent| ==> IsFrame(c, sent[i])
    ensures Genuine(c, Delivered(c, sent, which))
  {
    if which != [] {
      DeliveredGenuine(c, sent, which[1..]);
      if which[0] < |sent| {
        FrameIsReceived(c, sent[which[0]]);
      }
    }
  }

  lemma {:induction false} AckInFrom(s: seq<byte>, ack: Option<nat>)
    ensures AckIn(s, ack) == if AckIn(s, None).Some? then AckIn(s, None) else ack
    decreases |s|
  {
    if |s| >= 2 && |s| >= s[1] as int + 2 {
      var here := AckOfElem(s[0], s[2..2 + s[1]]);
      var rest := s[2 + s[1]..];
      AckInFrom(rest, ack);
      AckInFrom(rest, here);
    }
  }

  lemma {:induction false} AckInDumpFrom(dump: seq<seq<byte>>, ack: Option<nat>, issued: set<nat>)
    requires forall b :: b in dump ==> AckIn(b, None).Some? ==> AckIn(b, None).value in issued
    requires ack.Some? ==> ack.value in issued
    ensures AckInDump(dump, ack).Some? ==> AckInDump(dump, ack).value in issued
  {
    if dump != [] {
      AckInFrom(dump[0], ack);
      assert dump[0] in dump;
      AckInDumpFrom(dump[1..], AckIn(dump[0], ack), issued);
    }
  }

  /** Entries without an acknowledgement leave the client's variable alone. */
  lemma {:induction false} NoEntryKeeps(dump: seq<seq<byte>>, ack: Option<nat>)
    requires forall b :: b in dump ==> AckIn(b, None) == None
    ensures AckInDump(dump, ack) == ack
  {
    if dump != [] {
      AckInFrom(dump[0], ack);
      assert dump[0] in dump;
      NoEntryKeeps(dump[1..], ack);
    }
  }

  /** Of a dump with several entries, the last one with an acknowledgement decides. */
  lemma {:induction false} LastEntryWins(dump: seq<seq<byte>>, ack: Option<nat>, i: nat)
    requires i < |dump| && AckIn(dump[i], None).Some?
    requires forall j :: i < j < |dump| ==> AckIn(dump[j], None) == None
    ensures AckInDump(dump, ack) == AckIn(dump[i], None)
  {
    AckInFrom(dump[0], ack);
    if i == 0 {
      forall b | b in dump[1..] ensures AckIn(b, None) == None {
        var j :| 0 <= j < |dump[1..]| && dump[1..][j] == b;
        assert dump[j + 1] == b;
      }
      NoEntryKeeps(dump[1..], AckIn(dump[0], ack));
    } else {
      LastEntryWins(dump[1..], AckIn(dump[0], ack), i - 1);
    }
  }

  lemma {:induction false} AckInDumpAppend(xs: seq<seq<byte>>, ys: seq<seq<byte>>, ack: Option<nat>)
    ensures AckInDump(xs + ys, ack) == AckInDump(ys, AckInDump(xs, ack))
    decreases |xs|
  {
    if xs == [] {
      assert xs + ys == ys;
    } else {
      assert (xs + ys)[1..] == xs[1..] + ys;
      AckInDumpAppend(xs[1..], ys, AckIn(xs[0], ack));
    }
  }

  /** Everything a run reads from scan dumps, those that end in an error included. */
  function DumpsRead(c: Config, w: World, os: seq<Outcome>): seq<seq<byte>>
    requires c.Valid() && Good(c, w.tx)
    decreases |os|
  {
    if os == [] || w.tx.phase != Sending then []
    else DumpOf(os[0].scan) + DumpsRead(c, Step(c, w, os[0]), os[1..])
  }

  lemma StepReads(c: Config, w: World, o: Outcome)
    requires c.Valid() && Good(c, w.tx) && w.tx.phase == Sending
    ensures Step(c, w, o).tx.ackSeq == AckInDump(DumpOf(o.scan), w.tx.ackSeq)
  {}

  /** The acknowledgement the client goes by is the last one of everything read so far. */
  lemma {:induction false} LastAckRead(c: Config, w: World, os: seq<Outcome>)
    requires c.Valid() && Good(c, w.tx)
    ensures Run(c, w, os).tx.ackSeq == AckInDump(DumpsRead(c, w, os), w.tx.ackSeq)
    decreases |os|
  {
    if os != [] && w.tx.phase == Sending {
      var v := Step(c, w, os[0]);
      StepReads(c, w, os[0]);
      LastAckRead(c, v, os[1..]);
      AckInDumpAppend(DumpOf(os[0].scan), DumpsRead(c, v, os[1..]), w.tx.ackSeq);
    }
  }

  lemma HasFrameAppend(log: seq<Received>, got: seq<Received>, s: nat)
    ensures HasFrame(log, s) || HasFrame(got, s) <==> HasFrame(log + got, s)
  {
    if HasFrame(log, s) {
      var k :| 0 <= k < |log| && log[k].seqNum == s;
      assert (log + got)[k].seqNum == s;
    }
    if HasFrame(got, s) {
      var k :| 0 <= k < |got| && got[k].seqNum == s;
      assert (log + got)[|log| + k].seqNum == s;
    }
    if HasFrame(log + got, s) {
      var k :| 0 <= k < |log + got| && (log + got)[k].seqNum == s;
      assert if k < |log| then log[k].seqNum == s else got[k - |log|].seqNum == s;
    }
  }

  /** The access point's half of a step keeps what the log and the acknowledgements promise. */
  lemma OnAirKeeps(c: Config, leftover: set<nat>, w: World, o: Outcome)
    requires c.Valid() && Inv(c, leftover, w) && w.tx.phase == Sending
    ensures Inv(c, leftover, OnAirStep(c, w, o))
  {
    var sent := w.sent + [w.tx.frame];
    assert IsFrame(c, w.tx.frame);
    var got := Delivered(c, sent, o.delivered);
    DeliveredGenuine(c, sent, o.delivered);
    forall a | a in w.acks + AcksOf(got)
      ensures a in leftover || HasFrame(w.log + got, a)
    {
      HasFrameAppend(w.log, got, a);
    }
    if c.guaranteed && NoneStale(c, leftover) {
      forall s: nat | s < w.tx.seqNum ensures HasFrame(w.log + got, s) {
        HasFrameAppend(w.log, got, s);
      }
    }
  }

  lemma StepKeepsInv(c: Config, leftover: set<nat>, w: World, o: Outcome)
    requires c.Valid() && Inv(c, leftover, w) && w.tx.phase == Sending && HonestOutcome(c, w, o)
    ensures Inv(c, leftover, Step(c, w, o))
  {
    OnAirKeeps(c, leftover, w, o);
    var v := OnAirStep(c, w, o);
    AckInDumpFrom(DumpOf(o.scan), w.tx.ackSeq, v.acks);
  }

  lemma {:induction false} RunKeepsInv(c: Config, leftover: set<nat>, w: World, os: seq<Outcome>)
    requires c.Valid() && Inv(c, leftover, w) && Honest(c, w, os)
    ensures Inv(c, leftover, Run(c, w, os))
    decreases |os|
  {
    if os != [] && w.tx.phase == Sending {
      StepKeepsInv(c, leftover, w, os[0]);
      RunKeepsInv(c, leftover, Step(c, w, os[0]), os[1..]);
    }
  }

  // ----- main results -----

  /** The payload of the first log entry for frame s. */
  function DataOf(log: seq<Received>, s: nat): seq<byte> {
    if log == [] then [] else if log[0].seqNum == s then log[0].data else DataOf(log[1..], s)
  }

  /** The log deduplicated by sequence number, in sequence order. */
  function Deduplicated(log: seq<Received>, n: nat): seq<seq<byte>> {
    seq(n, s requires 0 <= s < n => DataOf(log, s))
  }

  lemma {:induction false} DataOfGenuine(c: Config, log: seq<Received>, s: nat)
    requires Genuine(c, log) && HasFrame(log, s) && s < NFrames(c.msg)
    ensures DataOf(log, s) == Payload(c.msg, s)
  {
    if log[0].seqNum != s {
      var k :| 0 <= k < |log| && log[k].seqNum == s;
      assert log[1..][k - 1].seqNum == s;
      DataOfGenuine(c, log[1..], s);
    }
  }

  /**
   At every moment of every run, in either delivery mode, the access point has
   logged nothing but exact slices of the message; in guaranteed mode, when no
   stale acknowledgement is about, it has logged every frame the sender has passed.
   */
  lemma Safety(c: Config, leftover: set<nat>, os: seq<Outcome>)
    requires c.Valid() && Honest(c, Init(c, leftover), os)
    ensures var w := Run(c, Init(c, leftover), os);
      && Genuine(c, w.log)
      && (c.guaranteed && NoneStale(c, leftover) ==> forall s: nat :: s < w.tx.seqNum ==> HasFrame(w.log, s))
  {
    RunKeepsInv(c, leftover, Init(c, leftover), os);
  }

  /** Every completed run hands the whole message over. */
  ghost predicate AlwaysDelivers(c: Config, leftover: set<nat>)
    requires c.Valid()
  {
    forall os: seq<Outcome> {:trigger Run(c, Init(c, leftover), os)} ::
      Honest(c, Init(c, leftover), os) && Run(c, Init(c, leftover), os).tx.phase == Complete ==>
        Flatten(Deduplicated(Run(c, Init(c, leftover), os).log, NFrames(c.msg))) == c.msg
  }

  /** A genuine log with every frame in it deduplicates to the message. */
  lemma AllFramesDeliver(c: Config, log: seq<Received>)
    requires Genuine(c, log) && forall s: nat :: s < NFrames(c.msg) ==> HasFrame(log, s)
    ensures Flatten(Deduplicated(log, NFrames(c.msg))) == c.msg
  {
    var n := NFrames(c.msg);
    forall s | 0 <= s < n ensures DataOf(log, s) == Payload(c.msg, s) {
      DataOfGenuine(c, log, s);
    }
    assert Deduplicated(log, n) == Payloads(c.msg, n);
    PayloadsConcatenate(c.msg, n);
  }

  lemma CompleteDelivers(c: Config, leftover: set<nat>, os: seq<Outcome>)
    requires c.Valid() && c.guaranteed && NoneStale(c, leftover) && Honest(c, Init(c, leftover), os)
    requires Run(c, Init(c, leftover), os).tx.phase == Complete
    ensures Flatten(Deduplicated(Run(c, Init(c, leftover), os).log, NFrames(c.msg))) == c.msg
  {
    RunKeepsInv(c, leftover, Init(c, leftover), os);
    AllFramesDeliver(c, Run(c, Init(c, leftover), os).log);
  }

  // ----- the condition is exact -----

  function AckBytes(s: nat): seq<byte> {
    if AckElem(s).Encodable() then Wire(AckElem(s)) else []
  }

  lemma AckBytesRead(s: nat, ack: Option<nat>)
    requires s < SEQ_LIMIT
    ensures AckIn(AckBytes(s), ack) == Some(s)
  {
    AckRoundTrip(s, [], [], ack);
    assert OnAir([], Wire(AckElem(s)), []) == AckBytes(s);
  }

  /** Each frame is sent once; frame v, if there is one, is lost and its stale acknowledgement read instead. */
  function StaleOutcome(v: nat, s: nat): Outcome {
    Outcome(if s == v then [] else [s], ReadOk([AckBytes(s)]))
  }

  function StaleRun(v: nat, s: nat, n: nat): seq<Outcome>
    requires s <= n
    decreases n - s
  {
    if s == n then [] else [StaleOutcome(v, s)] + StaleRun(v, s + 1, n)
  }

  ghost predicate InStaleRun(c: Config, v: nat, s: nat, w: World)
    requires c.Valid() && s <= NFrames(c.msg)
  {
    && Good(c, w.tx) && w.tx.seqNum == s
    && w.tx.phase == (if s < NFrames(c.msg) then Sending else Complete)
    && |w.sent| == s && (v < NFrames(c.msg) ==> v in w.acks)
    && Genuine(c, w.log) && !HasFrame(w.log, v)
  }

  /** Delivering only the frame just sent logs exactly that frame. */
  lemma DeliverCurrent(c: Config, sent: seq<seq<byte>>, s: nat)
    requires c.Valid() && s < NFrames(c.msg) && s < |sent| && sent[s] == FrameOf(c, s)
    ensures Delivered(c, sent, [s]) == [Expected(c, s)]
  {
    FrameRoundTrip(s, c.stamp, MoreFragments(c.msg, s), Payload(c.msg, s), c.pre, c.post);
    assert Delivered(c, sent, [s][1..]) == [];
    assert [Expected(c, s)] + [] == [Expected(c, s)];
  }

  lemma StaleStepOnAir(c: Config, v: nat, s: nat, w: World)
    requires c.Valid() && s < NFrames(c.msg) && InStaleRun(c, v, s, w)
    ensures var u := OnAirStep(c, w, StaleOutcome(v, s));
      && Genuine(c, u.log) && !HasFrame(u.log, v) && |u.sent| == s + 1
      && s in u.acks && (v < NFrames(c.msg) ==> v in u.acks)
  {
    var sent := w.sent + [w.tx.frame];
    var got := Delivered(c, sent, StaleOutcome(v, s).delivered);
    if s != v {
      DeliverCurrent(c, sent, s);
      assert got[0] in got;
    }
    HasFrameAppend(w.log, got, v);
  }

  /** A successful scan whose dump acknowledges the current frame moves the sender on. */
  lemma AcknowledgedStep(c: Config, tx: Sender)
    requires c.Valid() && Good(c, tx) && tx.phase == Sending
    ensures var t := ScanStep(c, tx, ReadOk([AckBytes(tx.seqNum)]));
      t.seqNum == tx.seqNum + 1 && t.phase == if t.seqNum < NFrames(c.msg) then Sending else Complete
  {
    var b := AckBytes(tx.seqNum);
    AckBytesRead(tx.seqNum, tx.ackSeq);
    assert AckInDump([b], tx.ackSeq) == AckInDump([b][1..], AckIn(b, tx.ackSeq));
  }

  lemma StaleStepHonest(c: Config, v: nat, s: nat, w: World)
    requires c.Valid() && s < NFrames(c.msg) && InStaleRun(c, v, s, w)
    ensures HonestOutcome(c, w, StaleOutcome(v, s))
  {
    StaleStepOnAir(c, v, s, w);
    AckBytesRead(s, None);
  }

  lemma StaleStep(c: Config, v: nat, s: nat, w: World)
    requires c.Valid() && s < NFrames(c.msg) && InStaleRun(c, v, s, w)
    ensures InStaleRun(c, v, s + 1, Step(c, w, StaleOutcome(v, s)))
  {
    StaleStepOnAir(c, v, s, w);
    AcknowledgedStep(c, w.tx);
  }

  lemma RunHead(c: Config, w: World, o: Outcome, os: seq<Outcome>)
    requires c.Valid() && Good(c, w.tx) && w.tx.phase == Sending
    ensures Run(c, w, [o] + os) == Run(c, Step(c, w, o), os)
    ensures Honest(c, w, [o] + os) <==> HonestOutcome(c, w, o) && Honest(c, Step(c, w, o), os)
  {
    assert ([o] + os)[1..] == os;
  }

  lemma {:induction false} StaleRunCompletes(c: Config, v: nat, s: nat, w: World)
    requires c.Valid() && s <= NFrames(c.msg) && InStaleRun(c, v, s, w)
    ensures var os := StaleRun(v, s, NFrames(c.msg));
      Honest(c, w, os) && InStaleRun(c, v, NFrames(c.msg), Run(c, w, os))
    decreases NFrames(c.msg) - s
  {
    if s < NFrames(c.msg) {
      StaleStepHonest(c, v, s, w);
      StaleStep(c, v, s, w);
      StaleRunCompletes(c, v, s + 1, Step(c, w, StaleOutcome(v, s)));
      RunHead(c, w, StaleOutcome(v, s), StaleRun(v, s + 1, NFrames(c.msg)));
    }
  }

  lemma {:induction false} MissingDataIsEmpty(log: seq<Received>, s: nat)
    requires !HasFrame(log, s)
    ensures DataOf(log, s) == []
  {
    if log != [] {
      HasFrameAppend([log[0]], log[1..], s);
      assert [log[0]] + log[1..] == log;
      assert log[0].seqNum != s;
      MissingDataIsEmpty(log[1..], s);
    }
  }

  lemma {:induction false} FlattenShorter(xs: seq<seq<byte>>, ys: seq<seq<byte>>, v: nat)
    requires |xs| == |ys| && forall i :: 0 <= i < |xs| ==> |xs[i]| <= |ys[i]|
    ensures |Flatten(xs)| <= |Flatten(ys)|
    ensures v < |xs| && |xs[v]| < |ys[v]| ==> |Flatten(xs)| < |Flatten(ys)|
  {
    if xs != [] {
      FlattenShorter(xs[1..], ys[1..], if v > 0 then v - 1 else |xs|);
    }
  }

  lemma DataOfShort(c: Config, log: seq<Received>, s: nat)
    requires Genuine(c, log) && s < NFrames(c.msg)
    ensures |DataOf(log, s)| <= |Payload(c.msg, s)|
  {
    if HasFrame(log, s) { DataOfGenuine(c, log, s); } else { MissingDataIsEmpty(log, s); }
  }

  /** A log without frame v does not deduplicate to the message. */
  lemma MissingFrameShows(c: Config, log: seq<Received>, v: nat)
    requires Genuine(c, log) && v < NFrames(c.msg) && !HasFrame(log, v)
    ensures Flatten(Deduplicated(log, NFrames(c.msg))) != c.msg
  {
    var n := NFrames(c.msg);
    var got, want := Deduplicated(log, n), Payloads(c.msg, n);
    forall s | 0 <= s < n ensures |got[s]| <= |want[s]| {
      DataOfShort(c, log, s);
    }
    MissingDataIsEmpty(log, v);
    FlattenShorter(got, want, v);
    PayloadsConcatenate(c.msg, n);
  }

  /** One stale acknowledgement of a number in use is enough to lose a frame unnoticed. */
  lemma StaleAckLosesData(c: Config, leftover: set<nat>, v: nat)
    requires c.Valid() && v in leftover && v < NFrames(c.msg)
    ensures !AlwaysDelivers(c, leftover)
  {
    var os := StaleRun(v, 0, NFrames(c.msg));
    StaleRunCompletes(c, v, 0, Init(c, leftover));
    MissingFrameShows(c, Run(c, Init(c, leftover), os).log, v);
  }

  /**
   Guaranteed delivery keeps its promise on every run exactly when no
   acknowledgement left over from an earlier message carries one of this
   message's sequence numbers.
   */
  lemma GuaranteedDeliveryExactly(c: Config, leftover: set<nat>)
    requires c.Valid() && c.guaranteed
    ensures AlwaysDelivers(c, leftover) <==> NoneStale(c, leftover)
  {
    if NoneStale(c, leftover) {
      forall os: seq<Outcome> | Honest(c, Init(c, leftover), os)
          && Run(c, Init(c, leftover), os).tx.phase == Complete
        ensures Flatten(Deduplicated(Run(c, Init(c, leftover), os).log, NFrames(c.msg))) == c.msg
      {
        CompleteDelivers(c, leftover, os);
      }
    } else {
      var v :| v in leftover && v < NFrames(c.msg);
      StaleAckLosesData(c, leftover, v);
    }
  }

  // ----- one message after another -----

  /** What may still be read as an acknowledgement is what was left over and what has been decoded since. */
  lemma {:induction false} AcksExactly(c: Config, w: World, os: seq<Outcome>, leftover: set<nat>)
    requires c.Valid() && Good(c, w.tx) && w.acks == leftover + AcksOf(w.log)
    ensures Run(c, w, os).acks == leftover + AcksOf(Run(c, w, os).log)
    decreases |os|
  {
    if os != [] && w.tx.phase == Sending {
      var got := Delivered(c, w.sent + [w.tx.frame], os[0].delivered);
      AcksOfBoth(w.log, got);
      AcksExactly(c, Step(c, w, os[0]), os[1..], leftover);
    }
  }

  lemma AcksOfBoth(log: seq<Received>, got: seq<Received>)
    ensures AcksOf(log + got) == AcksOf(log) + AcksOf(got)
  {}

  /**
   After any run for an earlier message, guaranteed delivery of the next one
   holds on all its runs exactly when neither an older leftover nor a frame
   decoded in that run carries one of its sequence numbers.
   */
  lemma NextMessageExactly(c: Config, leftover: set<nat>, os: seq<Outcome>, next: Config)
    requires c.Valid() && next.Valid() && next.guaranteed
    ensures var w := Run(c, Init(c, leftover), os);
      AlwaysDelivers(next, w.acks)
      <==> NoneStale(next, leftover) && forall s: nat :: s < NFrames(next.msg) ==> !HasFrame(w.log, s)
  {
    var w := Run(c, Init(c, leftover), os);
    AcksExactly(c, Init(c, leftover), os, leftover);
    GuaranteedDeliveryExactly(next, w.acks);
    if NoneStale(next, w.acks) {
      forall s: nat | HasFrame(w.log, s) ensures s in w.acks {
        var k :| 0 <= k < |w.log| && w.log[k].seqNum == s;
        assert w.log[k] in w.log;
      }
    }
    forall r | r in w.log ensures HasFrame(w.log, r.seqNum) {}
  }

  /** So once the first frame of some message has been decoded, no non-empty message after it is safe. */
  lemma NextMessageUnsafe(c: Config, leftover: set<nat>, os: seq<Outcome>, next: Config)
    requires c.Valid() && next.Valid() && next.guaranteed && next.msg != []
    requires HasFrame(Run(c, Init(c, leftover), os).log, 0)
    ensures !AlwaysDelivers(next, Run(c, Init(c, leftover), os).acks)
  {
    NextMessageExactly(c, leftover, os, next);
    FrameCount(next.msg, 0);
  }

  const LOST: Outcome := Outcome([], ReadOk([]))

  lemma SilentStep(c: Config, w: World)
    requires c.Valid() && !c.guaranteed && Good(c, w.tx) && w.tx.phase == Sending && w.tx.ackSeq == None
    ensures HonestOutcome(c, w, LOST)
    ensures var v := Step(c, w, LOST);
      && v.log == w.log && v.tx.ackSeq == None
      && v.tx.seqNum == w.tx.seqNum + 1 && (v.tx.phase == Sending || v.tx.phase == Complete)
  {
    assert AckInDump([], w.tx.ackSeq) == w.tx.ackSeq;
  }

  function Silence(n: nat): seq<Outcome> {
    if n == 0 then [] else [LOST] + Silence(n - 1)
  }

  predicate Silent(c: Config, w: World, n: nat)
    requires c.Valid()
  {
    && Good(c, w.tx) && w.log == [] && w.tx.ackSeq == None && n == NFrames(c.msg) - w.tx.seqNum
    && (w.tx.phase == Sending || w.tx.phase == Complete)
  }

  lemma StaysSilent(c: Config, w: World, n: nat)
    requires c.Valid() && !c.guaranteed && Silent(c, w, n) && w.tx.phase == Sending
    ensures n > 0 && Silent(c, Step(c, w, LOST), n - 1) && HonestOutcome(c, w, LOST)
  {
    SilentStep(c, w);
  }

  /** The run is honest, and nothing is logged before it completes. */
  ghost predicate SilentTo(c: Config, w: World, os: seq<Outcome>)
    requires c.Valid() && Good(c, w.tx)
  {
    Honest(c, w, os) && Silent(c, Run(c, w, os), 0)
  }

  lemma SilentEnd(c: Config, w: World, n: nat)
    requires c.Valid() && Silent(c, w, n) && w.tx.phase == Complete
    ensures SilentTo(c, w, Silence(n))
  {
    assert n == 0;
  }

  lemma SilentPrepend(c: Config, w: World, os: seq<Outcome>)
    requires c.Valid() && Good(c, w.tx) && w.tx.phase == Sending && HonestOutcome(c, w, LOST)
    requires SilentTo(c, Step(c, w, LOST), os)
    ensures SilentTo(c, w, [LOST] + os)
  {
    RunHead(c, w, LOST, os);
  }

  lemma {:induction false} SilentRun(c: Config, w: World, n: nat)
    requires c.Valid() && !c.guaranteed && Silent(c, w, n)
    ensures SilentTo(c, w, Silence(n))
    decreases n
  {
    if w.tx.phase == Sending {
      StaysSilent(c, w, n);
      SilentRun(c, Step(c, w, LOST), n - 1);
      SilentPrepend(c, w, Silence(n - 1));
    } else {
      SilentEnd(c, w, n);
    }
  }

  /** Best effort promises no delivery: a run that loses every frame completes all the same. */
  lemma BestEffortMayLose(c: Config, leftover: set<nat>)
    requires c.Valid() && !c.guaranteed
    ensures AlwaysDelivers(c, leftover) <==> c.msg == []
  {
    if c.msg == [] {
      forall os: seq<Outcome> | Honest(c, Init(c, leftover), os)
        ensures Flatten(Deduplicated(Run(c, Init(c, leftover), os).log, NFrames(c.msg))) == c.msg
      {
        assert Deduplicated(Run(c, Init(c, leftover), os).log, 0) == [];
      }
    } else {
      var os := Silence(NFrames(c.msg));
      SilentRun(c, Init(c, leftover), NFrames(c.msg));
      var log := Run(c, Init(c, leftover), os).log;
      assert log == [];
      assert forall s :: 0 <= s < NFrames(c.msg) ==> Deduplicated(log, NFrames(c.msg))[s] == [];
      FlattenShorter(Deduplicated(log, NFrames(c.msg)), Payloads(c.msg, NFrames(c.msg)), 0);
      PayloadsConcatenate(c.msg, NFrames(c.msg));
    }
  }

  // ----- termination -----

  /** Scans the current frame may still use. */
  function FrameBudget(c: Config, tx: Sender): int {
    if c.guaranteed then RETRIES * (tx.ackRetries - 1) + tx.scanRetries else tx.scanRetries
  }

  function FrameLimit(c: Config): nat {
    if c.guaranteed then RETRIES * RETRIES else RETRIES
  }

  /** (ACK retries, scan retries) drop lexicographically while a frame is being retried. */
  lemma StepSpendsBudget(c: Config, w: World, o: Outcome)
    requires c.Valid() && Good(c, w.tx) && w.tx.phase == Sending
    ensures var t := Step(c, w, o).tx;
      && t.seqNum <= w.tx.seqNum + 1
      && (t.phase == Sending && t.seqNum == w.tx.seqNum ==> 0 < FrameBudget(c, t) < FrameBudget(c, w.tx))
      && (t.seqNum == w.tx.seqNum + 1 ==> t.phase != Sending || FrameBudget(c, t) <= FrameLimit(c))
      && w.tx.seqNum <= t.seqNum
  {}

  /** A frame still being retried after |os| scans started with more than |os| scans to spend. */
  lemma {:induction false} ScansPerFrame(c: Config, w: World, os: seq<Outcome>)
    requires c.Valid() && Good(c, w.tx) && w.tx.phase == Sending
    ensures var r := Run(c, w, os).tx;
      r.phase == Sending && r.seqNum == w.tx.seqNum ==> |os| + FrameBudget(c, r) <= FrameBudget(c, w.tx)
    ensures Run(c, w, os).tx.seqNum >= w.tx.seqNum
    decreases |os|
  {
    if os != [] {
      StepSpendsBudget(c, w, os[0]);
      var v := Step(c, w, os[0]);
      if v.tx.phase == Sending {
        ScansPerFrame(c, v, os[1..]);
      }
    }
  }

  /** Scans that may still be used before the whole transmission is over. */
  function TotalBudget(c: Config, tx: Sender): int {
    (if c.guaranteed then 16 else 4) * (NFrames(c.msg) - 1 - tx.seqNum) + FrameBudget(c, tx)
  }

  lemma StepSpendsTotal(c: Config, w: World, o: Outcome)
    requires c.Valid() && Good(c, w.tx) && w.tx.phase == Sending
    ensures Step(c, w, o).tx.phase == Sending ==> TotalBudget(c, Step(c, w, o).tx) < TotalBudget(c, w.tx)
    ensures TotalBudget(c, w.tx) > 0
  {
    StepSpendsBudget(c, w, o);
  }

  lemma {:induction false} RunEndsFrom(c: Config, w: World, os: seq<Outcome>)
    requires c.Valid() && Good(c, w.tx)
    requires w.tx.phase == Sending ==> |os| >= TotalBudget(c, w.tx)
    ensures Run(c, w, os).tx.phase != Sending
    decreases |os|
  {
    if w.tx.phase == Sending {
      StepSpendsTotal(c, w, Outcome([], ScanFailed));
      StepSpendsTotal(c, w, os[0]);
      RunEndsFrom(c, Step(c, w, os[0]), os[1..]);
    }
  }

  /** Whatever the channel does, the loop ends within 16 (guaranteed) or 4 (best effort) scans a frame. */
  lemma TransmissionEnds(c: Config, leftover: set<nat>, os: seq<Outcome>)
    requires c.Valid() && |os| >= (if c.guaranteed then 16 else 4) * NFrames(c.msg)
    ensures Run(c, Init(c, leftover), os).tx.phase != Sending
  {
    RunEndsFrom(c, Init(c, leftover), os);
  }
}
