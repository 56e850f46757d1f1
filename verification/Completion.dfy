/**
 When a transmission completes: what each scan was, seen from the sender, and
 the exact patterns of scans on which it gives up.
 */
module Completion {
  import opened Bytes
  import opened ProbeStuffing
  import opened StopAndWait

  /** A scan fails, or shows the acknowledgement of the frame being sent, or does not. */
  datatype Kind = Fail | Hit | Miss

  function KindOf(tx: Sender, scan: Scan): Kind {
    match scan
    case ScanFailed => Fail
    case ReadError(_) => Miss
    case ReadOk(dump) => if AckInDump(dump, tx.ackSeq) == Some(tx.seqNum) then Hit else Miss
  }

  /** The scans of a run for as long as it lasts. */
  function Trace(c: Config, w: World, os: seq<Outcome>): seq<Kind>
    requires c.Valid() && Good(c, w.tx)
    decreases |os|
  {
    if os == [] || w.tx.phase != Sending then []
    else [KindOf(w.tx, os[0].scan)] + Trace(c, Step(c, w, os[0]), os[1..])
  }

  predicate StartsWithFails(ks: seq<Kind>, n: nat) {
    n <= |ks| && forall k :: 0 <= k < n ==> ks[k] == Fail
  }

  /** Four scans in a row fail. */
  predicate FourFails(ks: seq<Kind>) {
    exists i :: 0 <= i <= |ks| && StartsWithFails(ks[i..], 4)
  }

  function MissesBeforeHit(ks: seq<Kind>): nat {
    if ks == [] || ks[0] == Hit then 0
    else (if ks[0] == Miss then 1 else 0) + MissesBeforeHit(ks[1..])
  }

  /** Four scans without the acknowledgement and no hit between them. */
  predicate FourMisses(ks: seq<Kind>) {
    exists i :: 0 <= i <= |ks| && MissesBeforeHit(ks[i..]) >= 4
  }

  // ----- the patterns, one scan at a time -----

  predicate OutOfScans(ks: seq<Kind>, scans: nat) {
    StartsWithFails(ks, scans) || FourFails(ks)
  }

  predicate OutOfAcks(ks: seq<Kind>, acks: nat) {
    MissesBeforeHit(ks) >= acks || FourMisses(ks)
  }

  lemma NothingYet(scans: nat, acks: nat)
    requires scans > 0 && acks > 0
    ensures !OutOfScans([], scans) && !OutOfAcks([], acks)
  {}

  lemma StartsWithFailsHead(k: Kind, rest: seq<Kind>, n: nat)
    requires n > 0
    ensures StartsWithFails([k] + rest, n) <==> k == Fail && StartsWithFails(rest, n - 1)
  {
    var ks := [k] + rest;
    assert ks[0] == k && ks[1..] == rest;
    if StartsWithFails(ks, n) {
      forall j | 0 <= j < n - 1 ensures rest[j] == Fail { assert ks[j + 1] == Fail; }
    }
  }

  lemma FourFailsHead(k: Kind, rest: seq<Kind>)
    ensures FourFails([k] + rest) <==> StartsWithFails([k] + rest, RETRIES) || FourFails(rest)
  {
    var ks := [k] + rest;
    assert ks[0..] == ks;
    forall i | 1 <= i <= |ks| ensures ks[i..] == rest[i - 1..] {}
    if FourFails(rest) {
      var i :| 0 <= i <= |rest| && StartsWithFails(rest[i..], RETRIES);
      assert ks[i + 1..] == rest[i..];
    }
  }

  lemma FourMissesHead(k: Kind, rest: seq<Kind>)
    ensures FourMisses([k] + rest) <==> MissesBeforeHit([k] + rest) >= RETRIES || FourMisses(rest)
  {
    var ks := [k] + rest;
    assert ks[0..] == ks;
    forall i | 1 <= i <= |ks| ensures ks[i..] == rest[i - 1..] {}
    if FourMisses(rest) {
      var i :| 0 <= i <= |rest| && MissesBeforeHit(rest[i..]) >= RETRIES;
      assert ks[i + 1..] == rest[i..];
    }
  }

  lemma OutOfScansHead(k: Kind, rest: seq<Kind>, scans: nat)
    requires 1 <= scans <= RETRIES
    ensures OutOfScans([k] + rest, scans)
       <==> if k == Fail then scans == 1 || OutOfScans(rest, scans - 1) else OutOfScans(rest, RETRIES)
  {
    assert rest[0..] == rest;
    StartsWithFailsHead(k, rest, scans);
    StartsWithFailsHead(k, rest, RETRIES);
    FourFailsHead(k, rest);
  }

  lemma OutOfAcksHead(k: Kind, rest: seq<Kind>, acks: nat)
    requires 1 <= acks <= RETRIES
    ensures OutOfAcks([k] + rest, acks)
       <==> match k
            case Fail => OutOfAcks(rest, acks)
            case Miss => acks == 1 || OutOfAcks(rest, acks - 1)
            case Hit => OutOfAcks(rest, RETRIES)
  {
    assert rest[0..] == rest && ([k] + rest)[1..] == rest;
    FourMissesHead(k, rest);
  }

  // ----- giving up -----

  /** What one scan costs the sender. */
  lemma StepByKind(c: Config, w: World, o: Outcome)
    requires c.Valid() && Good(c, w.tx) && w.tx.phase == Sending
    ensures var t := Step(c, w, o).tx;
      match KindOf(w.tx, o.scan)
      case Fail =>
        t.ackRetries == w.tx.ackRetries && t.scanRetries == w.tx.scanRetries - 1
        && t.phase == if t.scanRetries == 0 then ScanGaveUp else Sending
      case Miss =>
        t.scanRetries == RETRIES
        && if c.guaranteed
           then t.ackRetries == w.tx.ackRetries - 1 && t.phase == if t.ackRetries == 0 then AckGaveUp else Sending
           else t.phase == Sending || t.phase == Complete
      case Hit => t.scanRetries == RETRIES && t.ackRetries == RETRIES && (t.phase == Sending || t.phase == Complete)
  {}

  /** The scans still allowed to fail, and the acknowledgements still allowed to be missed, decide. */
  lemma {:induction false} GivesUpFrom(c: Config, w: World, os: seq<Outcome>)
    requires c.Valid() && Good(c, w.tx) && w.tx.phase == Sending
    ensures var ks, end := Trace(c, w, os), Run(c, w, os).tx.phase;
      && (end == ScanGaveUp <==> OutOfScans(ks, w.tx.scanRetries))
      && (end == AckGaveUp <==> c.guaranteed && OutOfAcks(ks, w.tx.ackRetries))
    decreases |os|
  {
    if os == [] {
      NothingYet(w.tx.scanRetries, w.tx.ackRetries);
    } else {
      var k, v := KindOf(w.tx, os[0].scan), Step(c, w, os[0]);
      var rest := Trace(c, v, os[1..]);
      StepByKind(c, w, os[0]);
      OutOfScansHead(k, rest, w.tx.scanRetries);
      OutOfAcksHead(k, rest, w.tx.ackRetries);
      if v.tx.phase == Sending {
        GivesUpFrom(c, v, os[1..]);
      } else {
        NothingYet(RETRIES, RETRIES);
        NothingYet(RETRIES, w.tx.ackRetries);
      }
    }
  }

  /**
   A run gives up on scanning exactly when four scans in a row fail, and on
   acknowledgements exactly when, in guaranteed mode, four scans miss them with
   no hit in between. It ends in no other way but completing.
   */
  lemma GivesUpExactly(c: Config, leftover: set<nat>, os: seq<Outcome>)
    requires c.Valid()
    ensures var ks, end := Trace(c, Init(c, leftover), os), Run(c, Init(c, leftover), os).tx.phase;
      && (end == ScanGaveUp <==> FourFails(ks))
      && (end == AckGaveUp <==> c.guaranteed && FourMisses(ks))
  {
    var w := Init(c, leftover);
    var ks := Trace(c, w, os);
    assert ks[0..] == ks;
    if w.tx.phase == Sending { GivesUpFrom(c, w, os); } else { NothingYet(RETRIES, RETRIES); }
  }

  /** Given the scans it may need, a run completes exactly when neither pattern occurs. */
  lemma CompletesExactly(c: Config, leftover: set<nat>, os: seq<Outcome>)
    requires c.Valid() && |os| >= (if c.guaranteed then 16 else 4) * NFrames(c.msg)
    ensures var ks := Trace(c, Init(c, leftover), os);
      Run(c, Init(c, leftover), os).tx.phase == Complete <==> !FourFails(ks) && !(c.guaranteed && FourMisses(ks))
  {
    GivesUpExactly(c, leftover, os);
    TransmissionEnds(c, leftover, os);
  }

  /** Then, with nothing stale about, the message has been handed over. */
  lemma GuaranteedDelivers(c: Config, leftover: set<nat>, os: seq<Outcome>)
    requires c.Valid() && c.guaranteed && NoneStale(c, leftover) && Honest(c, Init(c, leftover), os)
    requires |os| >= 16 * NFrames(c.msg)
    requires var ks := Trace(c, Init(c, leftover), os); !FourFails(ks) && !FourMisses(ks)
    ensures var w := Run(c, Init(c, leftover), os);
      w.tx.phase == Complete && Flatten(Deduplicated(w.log, NFrames(c.msg))) == c.msg
  {
    CompletesExactly(c, leftover, os);
    CompleteDelivers(c, leftover, os);
  }

  /** Whatever was left over, some honest run completes: when every frame and its acknowledgement get through. */
  lemma CanComplete(c: Config, leftover: set<nat>)
    requires c.Valid()
    ensures exists os: seq<Outcome> :: Honest(c, Init(c, leftover), os) && Run(c, Init(c, leftover), os).tx.phase == Complete
  {
    var n := NFrames(c.msg);
    StaleRunCompletes(c, n, 0, Init(c, leftover));
    assert Honest(c, Init(c, leftover), StaleRun(n, 0, n));
  }
}
