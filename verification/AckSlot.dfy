/**
 The acknowledgement that the access point holds ready: overwritten by every
 decoded frame, and emptied by the first probe response that carries it. The
 client's scan dump repeats the latest probe response it has received.
 */
module AckSlot {
  import opened Bytes
  import opened ProbeStuffing
  import opened StopAndWait

  /** pending is held by the access point; shown is in the latest response the client has. */
  datatype Slot = Slot(pending: Option<nat>, shown: Option<nat>)

  /** A frame sent so far reaches the access point, or the access point answers some probe request. */
  datatype Air = Arrives(which: nat) | Answered(received: bool)

  datatype Turn = Turn(air: seq<Air>, scan: Scan)

  datatype Slotted = Slotted(w: World, slot: Slot)

  function FramesIn(air: seq<Air>): seq<nat> {
    if air == [] then []
    else if air[0].Arrives? then [air[0].which] + FramesIn(air[1..])
    else FramesIn(air[1..])
  }

  function Heard(c: Config, sent: seq<seq<byte>>, slot: Slot, a: Air): Slot
    requires c.Valid()
  {
    match a
    case Arrives(which) =>
      var got := Delivered(c, sent, [which]);
      if got == [] then slot else slot.(pending := Some(got[0].seqNum))
    case Answered(received) => Slot(None, if received then slot.pending else slot.shown)
  }

  /** A frame is heard as the access point receives it: when it decodes, its number replaces what was pending. */
  lemma ArrivalReplaces(c: Config, sent: seq<seq<byte>>, slot: Slot, which: nat)
    requires c.Valid() && which < |sent|
    ensures var r := ApReceive(OnAir(c.pre, sent[which], c.post));
      Heard(c, sent, slot, Arrives(which)) == if r.Some? then slot.(pending := Some(r.value.seqNum)) else slot
  {
    assert Delivered(c, sent, [which][1..]) == [];
  }

  /** An acknowledgement is carried by one response only: received or not, the next response is without. */
  lemma CarriedOnce(c: Config, sent: seq<seq<byte>>, slot: Slot, received: bool)
    requires c.Valid()
    ensures var once := Heard(c, sent, slot, Answered(received));
      && once.shown == (if received then slot.pending else slot.shown)
      && Heard(c, sent, once, Answered(true)) == Slot(None, None)
  {}

  function HeardAll(c: Config, sent: seq<seq<byte>>, slot: Slot, air: seq<Air>): Slot
    requires c.Valid()
    decreases |air|
  {
    if air == [] then slot else HeardAll(c, sent, Heard(c, sent, slot, air[0]), air[1..])
  }

  function ToOutcome(t: Turn): Outcome {
    Outcome(FramesIn(t.air), t.scan)
  }

  function TurnStep(c: Config, s: Slotted, t: Turn): (r: Slotted)
    requires c.Valid() && Good(c, s.w.tx) && s.w.tx.phase == Sending
    ensures Good(c, r.w.tx)
  {
    Slotted(Step(c, s.w, ToOutcome(t)), HeardAll(c, s.w.sent + [s.w.tx.frame], s.slot, t.air))
  }

  function TurnRun(c: Config, s: Slotted, ts: seq<Turn>): (r: Slotted)
    requires c.Valid() && Good(c, s.w.tx)
    ensures Good(c, r.w.tx)
    decreases |ts|
  {
    if ts == [] || s.w.tx.phase != Sending then s else TurnRun(c, TurnStep(c, s, ts[0]), ts[1..])
  }

  function Leftover(slot: Slot): set<nat> {
    (if slot.pending.Some? then {slot.pending.value} else {}) + (if slot.shown.Some? then {slot.shown.value} else {})
  }

  function Start(c: Config, slot: Slot): (s: Slotted)
    requires c.Valid()
    ensures Good(c, s.w.tx)
  {
    Slotted(Init(c, Leftover(slot)), slot)
  }

  /** The dump shows no acknowledgement but that of the latest response received. */
  ghost predicate HonestTurn(c: Config, s: Slotted, t: Turn)
    requires c.Valid() && Good(c, s.w.tx) && s.w.tx.phase == Sending
  {
    forall b :: b in DumpOf(t.scan) ==>
      AckIn(b, None).Some? ==> AckIn(b, None) == TurnStep(c, s, t).slot.shown
  }

  ghost predicate HonestTurns(c: Config, s: Slotted, ts: seq<Turn>)
    requires c.Valid() && Good(c, s.w.tx)
    decreases |ts|
  {
    ts == [] || s.w.tx.phase != Sending ||
    (HonestTurn(c, s, ts[0]) && HonestTurns(c, TurnStep(c, s, ts[0]), ts[1..]))
  }

  // ----- what the slot can hold -----

  /** An acknowledgement from before, or of a frame that has been decoded, or none. */
  predicate Known(before: set<nat>, log: seq<Received>, x: Option<nat>) {
    x.Some? ==> x.value in before || HasFrame(log, x.value)
  }

  predicate BothKnown(before: set<nat>, log: seq<Received>, slot: Slot) {
    Known(before, log, slot.pending) && Known(before, log, slot.shown)
  }

  /** A zero that is shown has displaced whatever was pending from before. */
  predicate ZeroDisplaces(log: seq<Received>, slot: Slot) {
    slot.shown == Some(0) ==> Known({}, log, slot.pending)
  }

  predicate Held(before: set<nat>, log: seq<Received>, slot: Slot) {
    BothKnown(before, log, slot) && ZeroDisplaces(log, slot)
  }

  lemma KnownGrows(before: set<nat>, log: seq<Received>, got: seq<Received>, x: Option<nat>)
    requires Known(before, log, x)
    ensures Known(before, log + got, x)
  {
    if x.Some? { HasFrameAppend(log, got, x.value); }
  }

  lemma HeardKeeps(c: Config, sent: seq<seq<byte>>, before: set<nat>, log: seq<Received>, slot: Slot, a: Air)
    requires c.Valid() && Held(before, log, slot)
    ensures Held(before, log + Delivered(c, sent, FramesIn([a])), Heard(c, sent, slot, a))
  {
    var got := Delivered(c, sent, FramesIn([a]));
    KnownGrows(before, log, got, slot.pending);
    KnownGrows(before, log, got, slot.shown);
    if Known({}, log, slot.pending) { KnownGrows({}, log, got, slot.pending); }
    if a.Arrives? {
      assert FramesIn([a]) == [a.which];
      if got != [] {
        assert HasFrame(got, got[0].seqNum);
        HasFrameAppend(log, got, got[0].seqNum);
      }
    }
  }

  lemma FramesOfHead(c: Config, sent: seq<seq<byte>>, air: seq<Air>)
    requires c.Valid() && air != []
    ensures Delivered(c, sent, FramesIn(air)) == Delivered(c, sent, FramesIn([air[0]])) + Delivered(c, sent, FramesIn(air[1..]))
  {
    var rest := FramesIn(air[1..]);
    if air[0].Arrives? {
      assert FramesIn([air[0]]) == [air[0].which] && ([air[0].which] + rest)[1..] == rest;
      assert Delivered(c, sent, [air[0].which][1..]) == [];
    }
  }

  lemma {:induction false} HeardAllKeeps(c: Config, sent: seq<seq<byte>>, before: set<nat>, log: seq<Received>,
                                         slot: Slot, air: seq<Air>)
    requires c.Valid() && Held(before, log, slot)
    ensures Held(before, log + Delivered(c, sent, FramesIn(air)), HeardAll(c, sent, slot, air))
    decreases |air|
  {
    if air == [] {
      assert log + Delivered(c, sent, FramesIn(air)) == log;
    } else {
      var got, rest := Delivered(c, sent, FramesIn([air[0]])), Delivered(c, sent, FramesIn(air[1..]));
      HeardKeeps(c, sent, before, log, slot, air[0]);
      HeardAllKeeps(c, sent, before, log + got, Heard(c, sent, slot, air[0]), air[1..]);
      FramesOfHead(c, sent, air);
      assert (log + got) + rest == log + (got + rest);
    }
  }

  // ----- invariant -----

  /** Once frame 0 is taken for acknowledged, nothing from before is left, and every frame passed has been decoded. */
  predicate Carried(before: set<nat>, log: seq<Received>, slot: Slot, tx: Sender) {
    && Held(before, log, slot) && Known(before, log, tx.ackSeq)
    && (tx.seqNum > 0 || tx.ackSeq == Some(0) ==> Held({}, log, slot) && Known({}, log, tx.ackSeq))
    && forall k: nat :: k < tx.seqNum ==> HasFrame(log, k)
  }

  ghost predicate SlotInv(c: Config, before: set<nat>, s: Slotted)
    requires c.Valid()
  {
    Inv(c, before, s.w) && s.w.acks == before + AcksOf(s.w.log) && Carried(before, s.w.log, s.slot, s.w.tx)
  }

  /** The client's last acknowledgement is the one it had, or the one shown. */
  lemma {:induction false} ReadAck(dump: seq<seq<byte>>, ack: Option<nat>, shown: Option<nat>)
    requires forall b :: b in dump ==> AckIn(b, None).Some? ==> AckIn(b, None) == shown
    ensures AckInDump(dump, ack) == ack || (AckInDump(dump, ack) == shown && shown.Some?)
  {
    if dump != [] {
      AckInFrom(dump[0], ack);
      assert dump[0] in dump;
      ReadAck(dump[1..], AckIn(dump[0], ack), shown);
    }
  }

  /** What the access point does in a turn keeps what is known, ... */
  lemma AirKeeps(c: Config, before: set<nat>, s: Slotted, t: Turn)
    requires c.Valid() && SlotInv(c, before, s) && s.w.tx.phase == Sending
    ensures Carried(before, OnAirStep(c, s.w, ToOutcome(t)).log, TurnStep(c, s, t).slot, s.w.tx)
  {
    var sent, log, tx := s.w.sent + [s.w.tx.frame], s.w.log, s.w.tx;
    var got := Delivered(c, sent, FramesIn(t.air));
    HeardAllKeeps(c, sent, before, log, s.slot, t.air);
    KnownGrows(before, log, got, tx.ackSeq);
    if tx.seqNum > 0 || tx.ackSeq == Some(0) {
      HeardAllKeeps(c, sent, {}, log, s.slot, t.air);
      KnownGrows({}, log, got, tx.ackSeq);
    }
    forall k: nat | k < tx.seqNum ensures HasFrame(log + got, k) {
      HasFrameAppend(log, got, k);
    }
  }

  lemma ReadAndMoved(c: Config, tx: Sender, scan: Scan)
    requires c.Valid() && c.guaranteed && Good(c, tx) && tx.phase == Sending
    ensures var r := ScanStep(c, tx, scan);
      && r.ackSeq == AckInDump(DumpOf(scan), tx.ackSeq)
      && (r.seqNum == tx.seqNum || (r.seqNum == tx.seqNum + 1 && r.ackSeq == Some(tx.seqNum)))
  {}

  /** ... and so does what the client makes of the scan. */
  lemma ScanKeeps(before: set<nat>, log: seq<Received>, slot: Slot, tx: Sender, r: Sender, dump: seq<seq<byte>>)
    requires 0 !in before && Carried(before, log, slot, tx)
    requires forall b :: b in dump ==> AckIn(b, None).Some? ==> AckIn(b, None) == slot.shown
    requires r.ackSeq == AckInDump(dump, tx.ackSeq)
    requires r.seqNum == tx.seqNum || (r.seqNum == tx.seqNum + 1 && r.ackSeq == Some(tx.seqNum))
    ensures Carried(before, log, slot, r)
  {
    ReadAck(dump, tx.ackSeq, slot.shown);
  }

  lemma AcksKnown(before: set<nat>, acks: set<nat>, log: seq<Received>, x: Option<nat>)
    requires acks == before + AcksOf(log)
    ensures Known(before, log, x) <==> (x.Some? ==> x.value in acks)
  {
    if x.Some? && HasFrame(log, x.value) {
      var k :| 0 <= k < |log| && log[k].seqNum == x.value;
      assert log[k] in log;
    }
  }

  /** Showing only the latest response is honest in the sense of the larger channel. */
  lemma TurnIsHonest(c: Config, before: set<nat>, s: Slotted, t: Turn)
    requires c.Valid() && SlotInv(c, before, s) && s.w.tx.phase == Sending && HonestTurn(c, s, t)
    ensures HonestOutcome(c, s.w, ToOutcome(t))
    ensures TurnStep(c, s, t).w.acks == before + AcksOf(TurnStep(c, s, t).w.log)
  {
    var v := OnAirStep(c, s.w, ToOutcome(t));
    AirKeeps(c, before, s, t);
    AcksOfBoth(s.w.log, Delivered(c, s.w.sent + [s.w.tx.frame], FramesIn(t.air)));
    AcksKnown(before, v.acks, v.log, TurnStep(c, s, t).slot.shown);
  }

  lemma TurnKeepsInv(c: Config, before: set<nat>, s: Slotted, t: Turn)
    requires c.Valid() && c.guaranteed && 0 !in before
    requires SlotInv(c, before, s) && s.w.tx.phase == Sending && HonestTurn(c, s, t)
    ensures SlotInv(c, before, TurnStep(c, s, t))
  {
    TurnIsHonest(c, before, s, t);
    StepKeepsInv(c, before, s.w, ToOutcome(t));
    AirKeeps(c, before, s, t);
    ReadAndMoved(c, s.w.tx, t.scan);
    var after := TurnStep(c, s, t);
    ScanKeeps(before, after.w.log, after.slot, s.w.tx, after.w.tx, DumpOf(t.scan));
  }

  lemma {:induction false} TurnsKeepInv(c: Config, before: set<nat>, s: Slotted, ts: seq<Turn>)
    requires c.Valid() && c.guaranteed && 0 !in before && SlotInv(c, before, s) && HonestTurns(c, s, ts)
    ensures SlotInv(c, before, TurnRun(c, s, ts))
    decreases |ts|
  {
    if ts != [] && s.w.tx.phase == Sending {
      TurnKeepsInv(c, before, s, ts[0]);
      TurnsKeepInv(c, before, TurnStep(c, s, ts[0]), ts[1..]);
    }
  }

  // ----- delivery -----

  predicate Handed(c: Config, log: seq<Received>) {
    Flatten(Deduplicated(log, NFrames(c.msg))) == c.msg
  }

  /** Every completed run hands the whole message over. */
  ghost predicate SlotDelivers(c: Config, slot: Slot)
    requires c.Valid()
  {
    forall ts: seq<Turn> {:trigger TurnRun(c, Start(c, slot), ts)} ::
      HonestTurns(c, Start(c, slot), ts) && TurnRun(c, Start(c, slot), ts).w.tx.phase == Complete ==>
        Handed(c, TurnRun(c, Start(c, slot), ts).w.log)
  }

  lemma WithoutZero(c: Config, slot: Slot, ts: seq<Turn>)
    requires c.Valid() && c.guaranteed && HonestTurns(c, Start(c, slot), ts)
    requires slot.pending != Some(0) && slot.shown != Some(0)
    ensures SlotInv(c, Leftover(slot), TurnRun(c, Start(c, slot), ts))
  {
    TurnsKeepInv(c, Leftover(slot), Start(c, slot), ts);
  }

  // ----- the condition is exact -----

  function Outcomes(ts: seq<Turn>): seq<Outcome> {
    if ts == [] then [] else [ToOutcome(ts[0])] + Outcomes(ts[1..])
  }

  lemma {:induction false} WorldOfRun(c: Config, s: Slotted, ts: seq<Turn>)
    requires c.Valid() && Good(c, s.w.tx)
    ensures TurnRun(c, s, ts).w == Run(c, s.w, Outcomes(ts))
    decreases |ts|
  {
    if ts != [] && s.w.tx.phase == Sending {
      WorldOfRun(c, TurnStep(c, s, ts[0]), ts[1..]);
      RunHead(c, s.w, ToOutcome(ts[0]), Outcomes(ts[1..]));
    }
  }

  /** Frame 0 is lost, and the zero from before is read instead; all others arrive and are answered at once. */
  function ZeroTurn(slot: Slot, k: nat): Turn {
    var air := if k > 0 then [Arrives(k), Answered(true)] else if slot.pending == Some(0) then [Answered(true)] else [];
    Turn(air, ReadOk([AckBytes(k)]))
  }

  function ZeroRun(slot: Slot, k: nat, n: nat): seq<Turn>
    requires k <= n
    decreases n - k
  {
    if k == n then [] else [ZeroTurn(slot, k)] + ZeroRun(slot, k + 1, n)
  }

  lemma ZeroTurnIsStale(slot: Slot, k: nat)
    ensures ToOutcome(ZeroTurn(slot, k)) == StaleOutcome(0, k)
  {
    var air := ZeroTurn(slot, k).air;
    if k > 0 {
      assert air[1..] == [Answered(true)] && FramesIn(air[1..][1..]) == [];
      assert FramesIn(air) == [k];
    } else if slot.pending == Some(0) {
      assert FramesIn(air[1..]) == [];
    }
  }

  lemma ZeroTurnShows(c: Config, slot: Slot, s: Slotted, k: nat)
    requires c.Valid() && k < NFrames(c.msg) && InStaleRun(c, 0, k, s.w)
    requires k == 0 ==> s.slot == slot && (slot.pending == Some(0) || slot.shown == Some(0))
    ensures TurnStep(c, s, ZeroTurn(slot, k)).slot.shown == Some(k)
  {
    var sent, air := s.w.sent + [s.w.tx.frame], ZeroTurn(slot, k).air;
    if k > 0 {
      DeliverCurrent(c, sent, k);
      var heard := Heard(c, sent, s.slot, air[0]);
      assert heard.pending == Some(k);
      assert air[1..] == [Answered(true)] && air[1..][1..] == [];
      assert HeardAll(c, sent, heard, air[1..]) == HeardAll(c, sent, Heard(c, sent, heard, Answered(true)), []);
    } else if slot.pending == Some(0) {
      assert air[1..] == [];
      assert HeardAll(c, sent, s.slot, air) == HeardAll(c, sent, Heard(c, sent, s.slot, Answered(true)), []);
    }
  }

  lemma ZeroTurnHonest(c: Config, slot: Slot, s: Slotted, k: nat)
    requires c.Valid() && k < NFrames(c.msg) && InStaleRun(c, 0, k, s.w)
    requires k == 0 ==> s.slot == slot && (slot.pending == Some(0) || slot.shown == Some(0))
    ensures HonestTurn(c, s, ZeroTurn(slot, k))
    ensures InStaleRun(c, 0, k + 1, TurnStep(c, s, ZeroTurn(slot, k)).w)
  {
    ZeroTurnIsStale(slot, k);
    ZeroTurnShows(c, slot, s, k);
    AckBytesRead(k, None);
    StaleStep(c, 0, k, s.w);
  }

  lemma TurnHead(c: Config, s: Slotted, t: Turn, rest: seq<Turn>)
    requires c.Valid() && Good(c, s.w.tx) && s.w.tx.phase == Sending
    ensures HonestTurns(c, s, [t] + rest) <==> HonestTurn(c, s, t) && HonestTurns(c, TurnStep(c, s, t), rest)
    ensures Outcomes([t] + rest) == [ToOutcome(t)] + Outcomes(rest)
  {
    assert ([t] + rest)[1..] == rest;
  }

  lemma {:induction false} ZeroRunIsStale(c: Config, slot: Slot, s: Slotted, k: nat)
    requires c.Valid() && k <= NFrames(c.msg) && InStaleRun(c, 0, k, s.w)
    requires k == 0 ==> s.slot == slot && (slot.pending == Some(0) || slot.shown == Some(0))
    ensures var ts := ZeroRun(slot, k, NFrames(c.msg));
      HonestTurns(c, s, ts) && Outcomes(ts) == StaleRun(0, k, NFrames(c.msg))
    decreases NFrames(c.msg) - k
  {
    if k < NFrames(c.msg) {
      var t := ZeroTurn(slot, k);
      ZeroTurnIsStale(slot, k);
      ZeroTurnHonest(c, slot, s, k);
      ZeroRunIsStale(c, slot, TurnStep(c, s, t), k + 1);
      TurnHead(c, s, t, ZeroRun(slot, k + 1, NFrames(c.msg)));
    }
  }

  lemma ZeroLosesFrame(c: Config, slot: Slot)
    requires c.Valid() && c.msg != [] && (slot.pending == Some(0) || slot.shown == Some(0))
    ensures !SlotDelivers(c, slot)
  {
    var s, n := Start(c, slot), NFrames(c.msg);
    var ts := ZeroRun(slot, 0, n);
    FrameCount(c.msg, 0);
    ZeroRunIsStale(c, slot, s, 0);
    WorldOfRun(c, s, ts);
    StaleRunCompletes(c, 0, 0, s.w);
    MissingFrameShows(c, TurnRun(c, s, ts).w.log, 0);
  }

  /**
   With the access point holding one acknowledgement at a time and only the
   latest response shown, guaranteed delivery keeps its promise on every run
   exactly when the message is empty or the acknowledgement still held or still
   shown is not 0: any other number is displaced before it could do harm.
   */
  lemma SlotDeliveryExactly(c: Config, slot: Slot)
    requires c.Valid() && c.guaranteed
    ensures SlotDelivers(c, slot) <==> c.msg == [] || (slot.pending != Some(0) && slot.shown != Some(0))
  {
    if c.msg == [] {
      forall ts: seq<Turn> ensures Handed(c, TurnRun(c, Start(c, slot), ts).w.log) {
        AllFramesDeliver(c, TurnRun(c, Start(c, slot), ts).w.log);
      }
    } else if slot.pending != Some(0) && slot.shown != Some(0) {
      forall ts: seq<Turn> | HonestTurns(c, Start(c, slot), ts) && TurnRun(c, Start(c, slot), ts).w.tx.phase == Complete
        ensures Handed(c, TurnRun(c, Start(c, slot), ts).w.log)
      {
        WithoutZero(c, slot, ts);
        AllFramesDeliver(c, TurnRun(c, Start(c, slot), ts).w.log);
      }
    } else {
      ZeroLosesFrame(c, slot);
    }
  }

  lemma OnlyZero(c: Config, log: seq<Received>, x: Option<nat>)
    requires NFrames(c.msg) == 1 && Genuine(c, log) && Known({}, log, x)
    ensures x == None || x == Some(0)
  {}

  /**
   After a message of one frame the next non-empty one is at risk for as long as
   an acknowledgement of it is held or shown: it can only be a 0.
   */
  lemma AfterOneFrame(c: Config, slot: Slot, ts: seq<Turn>, next: Config)
    requires c.Valid() && c.guaranteed && NFrames(c.msg) == 1 && HonestTurns(c, Start(c, slot), ts)
    requires slot.pending != Some(0) && slot.shown != Some(0)
    requires TurnRun(c, Start(c, slot), ts).w.tx.phase == Complete
    requires next.Valid() && next.guaranteed && next.msg != []
    ensures var last := TurnRun(c, Start(c, slot), ts).slot;
      SlotDelivers(next, last) <==> last == Slot(None, None)
  {
    var last := TurnRun(c, Start(c, slot), ts);
    WithoutZero(c, slot, ts);
    OnlyZero(c, last.w.log, last.slot.pending);
    OnlyZero(c, last.w.log, last.slot.shown);
    SlotDeliveryExactly(next, last.slot);
  }
}
