/**
 The client program: buffers filled byte by byte, and the nested loops that
 send one message. Each method is proved against the functions of
 ProbeStuffing and StopAndWait.
 */
module ProbeClient {
  import opened Bytes
  import opened Elements
  import opened ProbeStuffing
  import opened StopAndWait

  method CreateVendorIe(data: seq<byte>) returns (ie: array<byte>)
    requires |data| <= CHUNK
    ensures fresh(ie) && ie[..] == Wire(VendorElem(data))
  {
    var ieSize := 3 + |data|;
    ie := new byte[1 + ieSize + 1](_ => 0);
    ie[0], ie[1] := 221, ieSize;
    ie[2], ie[3], ie[4] := 1, 2, 3;
    var i, dataIdx := 5, 0;
    while i < |data| + 5
      invariant 5 <= i <= |data| + 5 && dataIdx == i - 5
      invariant ie[..5] == [221, ieSize, 1, 2, 3]
      invariant ie[5..i] == data[..dataIdx]
    {
      ie[i] := data[dataIdx];
      dataIdx := dataIdx + 1;
      i := i + 1;
    }
    assert ie[..] == ie[..5] + ie[5..];
  }

  /** All chunks but the last take 252 bytes, and the last what is left. */
  lemma ChunkWidth(len: nat, i: nat)
    requires i < NIes(len)
    ensures i < NIes(len) - 1 ==> ChunkEnd(len, i) == i * 252 + 252
    ensures i == NIes(len) - 1 ==> i * 252 <= len == ChunkEnd(len, i)
  {
    var q, r := len / 252, len % 252;
    assert len == 252 * q + r;
  }

  /** One turn of the copy loop, the last one included. */
  method CopyChunk(data: seq<byte>, nIes: nat, i: nat, len: nat) returns (raw: seq<byte>)
    requires i < nIes == NIes(|data|) && len == if i < nIes - 1 then 252 else |data| - (nIes - 1) * 252
    ensures raw == Chunks(data)[i]
  {
    ChunkWidth(|data|, i);
    ChunkAt(data, i);
    raw := data[i * 252..i * 252 + len];
  }

  method SplitData(data: seq<byte>, nIes: nat) returns (raw: array<seq<byte>>)
    requires data != [] && nIes == NIes(|data|)
    ensures fresh(raw) && raw[..] == Chunks(data)
  {
    ghost var chunks := Chunks(data);
    raw := new seq<byte>[nIes](_ => []);
    var i := 0;
    while i < nIes - 1
      invariant 0 <= i <= nIes - 1
      invariant forall q :: 0 <= q < i ==> raw[q] == chunks[q]
    {
      raw[i] := CopyChunk(data, nIes, i, 252);
      i := i + 1;
    }
    ChunkWidth(|data|, i);
    var lenLeft := |data| - (nIes - 1) * 252;
    raw[i] := CopyChunk(data, nIes, i, lenLeft);
  }

  lemma WireAllSnoc(es: seq<Elem>, i: nat)
    requires Encodable(es) && i < |es|
    ensures WireAll(es[..i + 1]) == WireAll(es[..i]) + Wire(es[i])
  {
    assert es[..i + 1] == es[..i] + [es[i]];
    WireAllAppend(es[..i], [es[i]]);
    assert WireAll([es[i]]) == Wire(es[i]) + WireAll([es[i]][1..]);
  }

  lemma {:induction false} WireAllPrefix(es: seq<Elem>, i: nat)
    requires Encodable(es) && i <= |es|
    ensures |WireAll(es[..i])| <= |WireAll(es)|
  {
    assert es == es[..i] + es[i..];
    WireAllAppend(es[..i], es[i..]);
  }

  /** The header element and one element per chunk, with their combined length. */
  method CreateIes(header: seq<byte>, raw: array<seq<byte>>) returns (ies: array<array<byte>>, iesLen: nat)
    requires |header| <= CHUNK && forall i :: 0 <= i < raw.Length ==> |raw[i]| <= CHUNK
    ensures var es := [VendorElem(header)] + VendorElems(raw[..]);
      && Encodable(es) && ies.Length == |es| && iesLen == |WireAll(es)|
      && forall q :: 0 <= q < |es| ==> ies[q][..] == Wire(es[q])
  {
    ghost var es := [VendorElem(header)] + VendorElems(raw[..]);
    var nIes := raw.Length;
    var first := CreateVendorIe(header);
    ies := new array<byte>[nIes + 1](_ => first);
    iesLen := first.Length;
    WireAllSnoc(es, 0);
    var n := 1;
    while n < nIes + 1
      invariant 1 <= n <= nIes + 1
      invariant forall q :: 0 <= q < n ==> ies[q][..] == Wire(es[q])
      invariant iesLen == |WireAll(es[..n])|
    {
      var ie := CreateVendorIe(raw[n - 1]);
      assert es[n] == VendorElem(raw[n - 1]);
      WireAllSnoc(es, n);
      iesLen := iesLen + ie.Length;
      ies[n] := ie;
      n := n + 1;
    }
    assert es[..n] == es;
  }

  /** Append all the elements into one buffer, byte by byte. */
  method AppendIes(ies: array<array<byte>>, iesLen: nat, ghost es: seq<Elem>) returns (iesData: array<byte>)
    requires Encodable(es) && ies.Length == |es| && iesLen == |WireAll(es)|
    requires forall q :: 0 <= q < |es| ==> ies[q][..] == Wire(es[q])
    ensures iesData[..] == WireAll(es)
  {
    iesData := new byte[iesLen](_ => 0);
    var i, k := 0, 0;
    while i < ies.Length
      invariant 0 <= i <= ies.Length
      invariant k == |WireAll(es[..i])| <= iesLen
      invariant iesData[..k] == WireAll(es[..i])
    {
      var ie := ies[i];
      assert ie[..] == Wire(es[i]);
      WireAllSnoc(es, i);
      WireAllPrefix(es, i + 1);
      ghost var done := WireAll(es[..i]);
      var j := 0;
      while j < ie.Length
        invariant 0 <= j <= ie.Length && k == |done| + j && |done| + ie.Length <= iesLen
        invariant ie[..] == Wire(es[i])
        invariant iesData[..k] == done + ie[..j]
      {
        iesData[k] := ie[j];
        k := k + 1;
        j := j + 1;
      }
      assert ie[..j] == ie[..];
      i := i + 1;
    }
    assert es[..i] == es;
    assert iesData[..] == iesData[..k];
  }

  method BuildFrame(seqNum: nat, stamp: Stamp, mfb: nat, data: seq<byte>) returns (iesData: array<byte>)
    requires seqNum < SEQ_LIMIT && stamp.Valid() && mfb < 10 && data != []
    ensures iesData[..] == Frame(seqNum, stamp, mfb, data)
  {
    FrameElemsEncodable(seqNum, stamp, mfb, data);
    HeaderWidth(seqNum, stamp, mfb);
    var raw := SplitData(data, NIes(|data|));
    assert forall i :: 0 <= i < raw.Length ==> raw[i] == raw[..][i];
    var ies, iesLen := CreateIes(HeaderText(seqNum, stamp, mfb), raw);
    iesData := AppendIes(ies, iesLen, FrameElems(seqNum, stamp, mfb, data));
  }

  /** One element of the walk. */
  lemma AckTurn(ies: seq<byte>, pos: nat, r: Option<nat>)
    requires pos + 2 <= |ies| && pos + 2 + ies[pos + 1] as int <= |ies|
    ensures var end := pos + 2 + ies[pos + 1];
            var here := AckOfElem(ies[pos], ies[pos + 2..end]);
      AckIn(ies[pos..], r) == AckIn(ies[end..], if here.Some? then here else r)
  {
    var s, len := ies[pos..], ies[pos + 1];
    assert s[2..2 + len] == ies[pos + 2..pos + 2 + len];
    assert s[2 + len..] == ies[pos + 2 + len..];
  }

  /** extract_ack_from_vendor_ie: the text behind our OUI. */
  method ExtractAck(data: seq<byte>) returns (text: Option<seq<byte>>)
    ensures text == if |data| >= 4 && data[..3] == OUI then Some(data[3..]) else None
  {
    if |data| >= 4 && data[..3] == OUI {
      var ack := new byte[|data| - 3];
      for i := 0 to |data| - 3
        invariant ack[..i] == data[3..3 + i]
      {
        ack[i] := data[i + 3];
      }
      assert ack[..] == ack[..|data| - 3] && data[3..3 + (|data| - 3)] == data[3..];
      return Some(ack[..]);
    }
    return None;
  }

  /** What get_ack does with one element. */
  method TakeAck(id: byte, body: seq<byte>, ack: Option<nat>) returns (r: Option<nat>)
    ensures r == if AckOfElem(id, body).Some? then AckOfElem(id, body) else ack
  {
    r := ack;
    if id == 221 {
      var text := ExtractAck(body);
      if text.Some? {
        r := Some(Atoi(CString(text.value)));
      }
    }
  }

  /** get_ack on the elements of one entry of the scan dump. */
  method GetAck(ies: seq<byte>, ack: Option<nat>) returns (r: Option<nat>)
    ensures r == AckIn(ies, ack)
  {
    r := ack;
    var pos, left := 0, |ies|;
    assert ies[0..] == ies;
    ghost var want := AckIn(ies, ack);
    while left >= 2 && left >= ies[pos + 1] as int + 2
      invariant 0 <= pos <= |ies| && left == |ies| - pos
      invariant want == AckIn(ies[pos..], r)
    {
      AckTurn(ies, pos, r);
      var len: int := ies[pos + 1];
      r := TakeAck(ies[pos], ies[pos + 2..pos + 2 + len], r);
      left := left - len - 2;
      pos := pos + len + 2;
    }
  }

  method GetAckDump(dump: seq<seq<byte>>, ack: Option<nat>) returns (r: Option<nat>)
    ensures r == AckInDump(dump, ack)
  {
    r := ack;
    var i := 0;
    while i < |dump|
      invariant 0 <= i <= |dump|
      invariant AckInDump(dump, ack) == AckInDump(dump[i..], r)
    {
      r := GetAck(dump[i], r);
      i := i + 1;
    }
  }

  lemma RunOne(c: Config, w: World, o: Outcome)
    requires c.Valid() && Good(c, w.tx) && w.tx.phase == Sending
    ensures Run(c, w, [o]) == Step(c, w, o)
  {
    assert Run(c, w, [o]) == Run(c, Step(c, w, o), []);
  }

  lemma {:induction false} RunAppend(c: Config, w: World, xs: seq<Outcome>, ys: seq<Outcome>)
    requires c.Valid() && Good(c, w.tx)
    ensures Run(c, w, xs + ys) == Run(c, Run(c, w, xs), ys)
    decreases |xs|
  {
    if xs == [] {
      assert xs + ys == ys;
    } else if w.tx.phase == Sending {
      assert (xs + ys)[1..] == xs[1..] + ys;
      RunAppend(c, Step(c, w, xs[0]), xs[1..], ys);
    }
  }

  lemma RunSnoc(c: Config, w: World, os: seq<Outcome>, o: Outcome)
    requires c.Valid() && Good(c, w.tx) && Run(c, w, os).tx.phase == Sending
    ensures Run(c, w, os + [o]) == Step(c, Run(c, w, os), o)
  {
    RunAppend(c, w, os, [o]);
    RunOne(c, Run(c, w, os), o);
  }

  /** What the first n transmissions meet. */
  function Outcomes(channel: nat -> Outcome, n: nat): seq<Outcome> {
    if n == 0 then [] else Outcomes(channel, n - 1) + [channel(n - 1)]
  }

  lemma OneMore(c: Config, w0: World, channel: nat -> Outcome, n: nat)
    requires c.Valid() && Good(c, w0.tx) && Run(c, w0, Outcomes(channel, n)).tx.phase == Sending
    ensures Run(c, w0, Outcomes(channel, n + 1)) == Step(c, Run(c, w0, Outcomes(channel, n)), channel(n))
  {
    var os := Outcomes(channel, n);
    RunSnoc(c, w0, os, channel(n));
    assert Outcomes(channel, n + 1) == os + [channel(n)];
    assert Run(c, w0, os + [channel(n)]) == Step(c, Run(c, w0, os), channel(n));
    assert Run(c, w0, Outcomes(channel, n + 1)) == Run(c, w0, os + [channel(n)]);
  }

  /** What the checks after the inner loop make of the variables it leaves behind. */
  function AfterLoop(c: Config, tx: Sender): Sender
    requires c.Valid() && (tx.scanRetries > 0 && tx.ackRetries > 0 ==> AtHead(c, tx))
  {
    if tx.scanRetries == 0 then tx.(phase := ScanGaveUp)
    else if tx.ackRetries == 0 then tx.(phase := AckGaveUp)
    else NextFrame(c, tx)
  }

  /** One turn of the inner loop: the retry counters, and whether to leave the loop. */
  method AfterScan(c: Config, scan: Scan, tx: Sender) returns (leave: bool, t: Sender)
    requires c.Valid() && Good(c, tx) && tx.phase == Sending
    ensures t.phase == Sending && t.stuffed == tx.stuffed && t.frame == tx.frame
    ensures !leave ==> t == ScanStep(c, tx, scan) && t.phase == Sending && t.seqNum == tx.seqNum
    ensures leave ==> (t.scanRetries > 0 && t.ackRetries > 0 ==> AtHead(c, t) && t.scanRetries == 4)
    ensures leave ==> AfterLoop(c, t) == ScanStep(c, tx, scan)
    ensures leave && t.scanRetries > 0 && t.ackRetries > 0 ==> t.seqNum == tx.seqNum + 1
  {
    var seqNum, ackSeq, scanRetries, ackRetries := tx.seqNum, tx.ackSeq, tx.scanRetries, tx.ackRetries;
    leave := false;
    if scan == ScanFailed {
      scanRetries := scanRetries - 1;
      leave := scanRetries <= 0;
    } else {
      scanRetries := 4;
      ackSeq := GetAckDump(scan.dump, ackSeq);
      if scan.ReadError? || ackSeq != Some(seqNum) {
        if c.guaranteed {
          ackRetries := ackRetries - 1;
          leave := ackRetries <= 0;
        } else {
          seqNum := seqNum + 1;
          leave := true;
        }
      } else {
        seqNum := seqNum + 1;
        ackRetries := 4;
        leave := true;
      }
    }
    t := tx.(seqNum := seqNum, ackSeq := ackSeq, scanRetries := scanRetries, ackRetries := ackRetries);
  }

  /** Scans a sender in this state may still use. */
  function ScansLeft(c: Config, tx: Sender): int {
    if tx.phase == Sending then TotalBudget(c, tx) else 0
  }

  /** Still in the inner loop: w with tx is the world after that many scans. */
  predicate InFrame(c: Config, w0: World, channel: nat -> Outcome, w: World, tx: Sender, scans: nat)
    requires c.Valid() && Good(c, w0.tx)
  {
    Good(c, tx) && tx.phase == Sending && w.(tx := tx) == Run(c, w0, Outcomes(channel, scans))
  }

  /** Left without giving up, the variables are those of the head of the outer loop. */
  predicate Left(c: Config, t: Sender) {
    t.scanRetries > 0 && t.ackRetries > 0 ==> AtHead(c, t) && t.scanRetries == 4
  }

  /** Out of the inner loop: the world after that many scans is w once the checks after the loop are done. */
  predicate FrameOver(c: Config, w0: World, channel: nat -> Outcome, w: World, t: Sender, scans: nat)
    requires c.Valid() && Good(c, w0.tx)
  {
    Left(c, t) && w.(tx := AfterLoop(c, t)) == Run(c, w0, Outcomes(channel, scans))
  }

  lemma FrameTurn(c: Config, w0: World, channel: nat -> Outcome, w: World, tx: Sender, scans: nat, t: Sender)
    requires c.Valid() && Good(c, w0.tx) && InFrame(c, w0, channel, w, tx, scans)
    ensures var o := channel(scans);
            var v := OnAirStep(c, w.(tx := tx), o);
            var r := ScanStep(c, tx, o.scan);
      && (r.phase == Sending && t == r ==> InFrame(c, w0, channel, v, t, scans + 1))
      && (Left(c, t) && AfterLoop(c, t) == r ==> FrameOver(c, w0, channel, v, t, scans + 1))
      && (r.phase == Sending ==> TotalBudget(c, r) < TotalBudget(c, tx))
      && TotalBudget(c, tx) > 0
  {
    OneMore(c, w0, channel, scans);
    StepSpendsTotal(c, w.(tx := tx), channel(scans));
  }

  /** The inner loop: send one frame until it is acknowledged, skipped or given up. */
  method SendFrame(c: Config, ghost w0: World, channel: nat -> Outcome, w: World, tx: Sender, scans: nat)
    returns (w': World, t: Sender, scans': nat)
    requires c.Valid() && Good(c, w0.tx) && InFrame(c, w0, channel, w, tx, scans)
    ensures FrameOver(c, w0, channel, w', t, scans')
    ensures t.scanRetries > 0 && t.ackRetries > 0 ==> t.seqNum == tx.seqNum + 1
    ensures scans' + ScansLeft(c, AfterLoop(c, t)) <= scans + TotalBudget(c, tx)
  {
    w', t, scans' := w, tx, scans;
    var leave := false;
    while !leave
      invariant !leave ==> InFrame(c, w0, channel, w', t, scans') && t.seqNum == tx.seqNum
      invariant !leave ==> scans' + TotalBudget(c, t) <= scans + TotalBudget(c, tx)
      invariant leave ==> FrameOver(c, w0, channel, w', t, scans')
      invariant leave ==> t.scanRetries > 0 && t.ackRetries > 0 ==> t.seqNum == tx.seqNum + 1
      invariant leave ==> scans' + ScansLeft(c, AfterLoop(c, t)) <= scans + TotalBudget(c, tx)
      decreases !leave, TotalBudget(c, t)
    {
      var o := channel(scans');
      ghost var w1, t1 := w', t;
      w' := OnAirStep(c, w'.(tx := t), o);
      leave, t := AfterScan(c, o.scan, t);
      FrameTurn(c, w0, channel, w1, t1, scans', t);
      scans' := scans' + 1;
    }
  }

  /** Cut the next payload out of the message; mfb tells whether more follows. */
  method CutData(msg: seq<byte>, seqNum: nat, stuffed: nat) returns (data: seq<byte>, stuffed': nat, mfb: nat)
    requires seqNum < NFrames(msg) && stuffed == Min(seqNum * MAX_DATA, |msg|)
    ensures data == Payload(msg, seqNum) && mfb == MoreFragments(msg, seqNum)
    ensures stuffed' == Min((seqNum + 1) * MAX_DATA, |msg|)
  {
    CutIsPayload(msg, seqNum, stuffed);
    var start := seqNum * 1394;
    if |msg| - stuffed > 1394 {
      data := msg[start..start + 1394];
      stuffed' := stuffed + 1394;
      mfb := 1;
    } else {
      data := msg[start..start + (|msg| - stuffed)];
      stuffed' := |msg|;
      mfb := 0;
    }
  }

  /** The first half of the outer loop: cut the next payload and build its frame. */
  method PrepareFrame(c: Config, tx: Sender) returns (t: Sender)
    requires c.Valid() && AtHead(c, tx) && tx.stuffed < |c.msg|
    ensures t == NextFrame(c, tx)
  {
    FrameCount(c.msg, tx.seqNum);
    var data, stuffed, mfb := CutData(c.msg, tx.seqNum, tx.stuffed);
    var iesData := BuildFrame(tx.seqNum, c.stamp, mfb, data);
    t := tx.(phase := Sending, stuffed := stuffed, frame := iesData[..]);
    SameFrame(c, tx, t);
  }

  /** NextFrame leaves no choice but the frame for the sequence number. */
  lemma SameFrame(c: Config, tx: Sender, t: Sender)
    requires c.Valid() && AtHead(c, tx) && tx.seqNum < NFrames(c.msg)
    requires t == tx.(phase := Sending, stuffed := Min((tx.seqNum + 1) * MAX_DATA, |c.msg|), frame := FrameOf(c, tx.seqNum))
    ensures t == NextFrame(c, tx)
  {}

  /**
   The transmit loop of main, for an arbitrary channel: the n-th transmission
   meets channel(n). tx holds main's local variables.
   */
  method Transmit(c: Config, leftover: set<nat>, channel: nat -> Outcome) returns (w: World, scans: nat)
    requires c.Valid()
    ensures w.tx.phase != Sending
    ensures w == Run(c, Init(c, leftover), Outcomes(channel, scans))
    ensures scans <= (if c.guaranteed then 16 else 4) * NFrames(c.msg)
  {
    var tx := Sender(Sending, 0, 0, 4, 4, None, []);
    w := World(tx, [], [], leftover);
    scans := 0;
    ghost var w0 := Init(c, leftover);

    while tx.stuffed < |c.msg|
      invariant AtHead(c, tx) && tx.scanRetries == 4
      invariant w.(tx := NextFrame(c, tx)) == Run(c, w0, Outcomes(channel, scans))
      invariant scans + ScansLeft(c, NextFrame(c, tx)) <= (if c.guaranteed then 16 else 4) * NFrames(c.msg)
      decreases NFrames(c.msg) - tx.seqNum
    {
      tx := PrepareFrame(c, tx);
      w, tx, scans := SendFrame(c, w0, channel, w, tx, scans);
      if tx.scanRetries == 0 || tx.ackRetries == 0 {
        w := w.(tx := AfterLoop(c, tx));
        return;
      }
    }
    w := w.(tx := tx.(phase := Complete));
  }
}
