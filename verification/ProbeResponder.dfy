/**
 The access point's side of a stuffed probe request, as handle_probe_req runs
 it: collect the stuffed elements, join their texts, split the header, and
 build the acknowledgement element.
 */
module ProbeResponder {
  import opened Bytes
  import opened Elements
  import opened ProbeStuffing
  import opened StopAndWait

  lemma TextsSnoc(bodies: seq<seq<byte>>, i: nat)
    requires i < |bodies|
    ensures StuffedTexts(bodies[..i + 1]) == StuffedTexts(bodies[..i]) + [StuffedText(bodies[i])]
  {}

  /** Copy each stuffed element after the first and strcat the copies. */
  method JoinStuffed(stuffed: seq<seq<byte>>) returns (recvData: seq<byte>)
    requires stuffed != [] && forall i :: 0 <= i < |stuffed| ==> |stuffed[i]| >= 3
    ensures recvData == Flatten(StuffedTexts(stuffed[1..]))
  {
    ghost var rest := stuffed[1..];
    var n := |stuffed| - 1;
    var copies := new seq<byte>[n](_ => []);
    var i := 1;
    while i < |stuffed|
      invariant 1 <= i <= |stuffed|
      invariant forall q :: 0 <= q < i - 1 ==> copies[q] == stuffed[q + 1][3..] + [0]
    {
      copies[i - 1] := stuffed[i][3..] + [0];
      i := i + 1;
    }
    recvData := [];
    i := 0;
    while i < n
      invariant 0 <= i <= n
      invariant forall q :: 0 <= q < n ==> copies[q] == stuffed[q + 1][3..] + [0]
      invariant recvData == Flatten(StuffedTexts(rest[..i]))
    {
      assert rest[i] == stuffed[i + 1] && copies[i] == rest[i][3..] + [0];
      CStringTerminated(rest[i][3..]);
      TextsSnoc(rest, i);
      FlattenSnoc(StuffedTexts(rest[..i]), StuffedText(rest[i]));
      recvData := recvData + CString(copies[i]);
      i := i + 1;
    }
    assert rest[..n] == rest;
  }

  /** The terminator written after a copy does not change the string it holds. */
  lemma {:induction false} CStringTerminated(s: seq<byte>)
    ensures CString(s + [0]) == CString(s)
  {
    if s != [] && s[0] != 0 {
      assert (s + [0])[1..] == s[1..] + [0];
      CStringTerminated(s[1..]);
    }
  }

  /** Every received sequence number fits the eight characters it was read from. */
  lemma ReceivedSeqFits(stuffed: seq<seq<byte>>)
    requires stuffed != []
    ensures Reassemble(stuffed).value.seqNum < SEQ_LIMIT
    ensures AckElem(Reassemble(stuffed).value.seqNum).Encodable()
  {
    var n := Reassemble(stuffed).value.seqNum;
    assert Pow10(8) == 10 * 10 * 10 * 10 * Pow10(4);
    assert Pow10(4) == 10 * 10 * 10 * 10 * Pow10(0);
    AtoiBound(0, Strncpy(StuffedText(stuffed[0]), 0, 8), 8);
    DigitsWidth(n, 8);
  }

  lemma {:induction false} StuffedBodiesLong(es: seq<Elem>)
    ensures forall b :: b in StuffedBodies(es) ==> |b| >= 4
  {
    if es != [] { StuffedBodiesLong(es[1..]); }
  }

  method CreateAckIe(seqNum: nat) returns (ieAck: array<byte>)
    requires AckElem(seqNum).Encodable()
    ensures ieAck[..] == Wire(AckElem(seqNum))
  {
    var text := Digits(seqNum);
    var ieAckLen := |text| + 5;
    ieAck := new byte[ieAckLen](_ => 0);
    ieAck[0], ieAck[1] := 221, ieAckLen - 2;
    ieAck[2], ieAck[3], ieAck[4] := 1, 2, 3;
    var i, j := 5, 0;
    while i < ieAckLen
      invariant 5 <= i <= ieAckLen && j == i - 5
      invariant ieAck[..5] == [221, ieAckLen - 2, 1, 2, 3]
      invariant ieAck[5..i] == text[..j]
    {
      ieAck[i] := text[j];
      j := j + 1;
      i := i + 1;
    }
    assert ieAck[..] == ieAck[..5] + ieAck[5..];
  }

  /** The header of the first stuffed element and the data of the others. */
  method DecodeStuffed(stuffed: seq<seq<byte>>) returns (received: Received)
    requires stuffed != [] && forall i :: 0 <= i < |stuffed| ==> |stuffed[i]| >= 3
    ensures Reassemble(stuffed) == Some(received)
  {
    var recvData := JoinStuffed(stuffed);
    var header := CString(stuffed[0][3..]);
    var seqText, stampText, mfbText := Strncpy(header, 0, 8), Strncpy(header, 8, 18), Strncpy(header, 26, 1);
    received := Received(Atoi(seqText), stampText, Atoi(mfbText), recvData);
  }

  /**
   Decode one probe request. When it carried stuffed data, ack is the element
   to go into the next probe response.
   */
  method HandleProbeReq(ies: seq<byte>) returns (received: Option<Received>, ack: seq<byte>)
    ensures received == ApReceive(ies)
    ensures received.Some? ==>
              AckElem(received.value.seqNum).Encodable() && ack == Wire(AckElem(received.value.seqNum))
  {
    received, ack := None, [];
    var failed, stuffed := ParseStuffed(ies);
    if failed { return; }
    StuffedBodiesLong(ParseElems(ies).value);
    if |stuffed| > 0 {
      assert forall i :: 0 <= i < |stuffed| ==> stuffed[i] in stuffed;
      var got := DecodeStuffed(stuffed);
      received := Some(got);
      ReceivedSeqFits(stuffed);
      var ieAck := CreateAckIe(got.seqNum);
      ack := ieAck[..];
    }
  }

  /** The BSS configuration's probe_resp_ack_ie. */
  class BssConfig {
    var ackIe: Option<seq<byte>>

    constructor ()
      ensures ackIe == None
    {
      ackIe := None;
    }

    /** handle_probe_req: a decoded frame puts its acknowledgement in place of whatever was held ready. */
    method RxProbeReq(ies: seq<byte>) returns (received: Option<Received>)
      modifies this
      ensures received == ApReceive(ies)
      ensures ackIe == if received.Some? then Some(AckBytes(received.value.seqNum)) else old(ackIe)
    {
      var r, ack := HandleProbeReq(ies);
      if r.Some? { ackIe := Some(ack); }
      return r;
    }

    /** hostapd_gen_probe_resp, its last element: the first response to carry the acknowledgement empties the slot. */
    method GenProbeResp(head: seq<byte>) returns (resp: seq<byte>)
      modifies this
      ensures ackIe == None
      ensures resp == head + if old(ackIe).Some? then old(ackIe).value else []
    {
      resp := head;
      if ackIe.Some? {
        resp := resp + ackIe.value;
        ackIe := None;
      }
    }
  }

  /** The client reads from such a response exactly the acknowledgement that was held ready. */
  lemma ResponseShowsPending(head: seq<Elem>, pending: Option<nat>, ack: Option<nat>)
    requires Surroundings(head) && (pending.Some? ==> pending.value < SEQ_LIMIT)
    ensures AckIn(WireAll(head) + (if pending.Some? then AckBytes(pending.value) else []), ack)
         == if pending.Some? then pending else ack
  {
    AckInAppend(head, if pending.Some? then AckBytes(pending.value) else [], ack);
    if pending.Some? { AckBytesRead(pending.value, ack); }
  }
}
