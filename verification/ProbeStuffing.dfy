/**
 The stuffed probe request: how the client cuts a message into frames and
 frames into vendor elements, and how the access point puts them back
 together and acknowledges them.
 */
module ProbeStuffing {
  import opened Bytes
  import opened Elements

  const CHUNK: nat := 252
  const MAX_DATA: nat := 1394
  /** The frame size the client's comment budgets for. */
  const IE_BUDGET: nat := 1452
  const INT_MAX: nat := 0x7fff_ffff

  // ----- client: elements of one frame -----

  /** get_n_ies_reqd */
  function NIes(len: nat): nat {
    if len % 252 == 0 then len / 252 else len / 252 + 1
  }

  function VendorElem(data: seq<byte>): Elem {
    Elem(VENDOR_SPECIFIC, OUI + data)
  }

  /** The bytes of an element on the air. */
  lemma VendorBytes(data: seq<byte>)
    requires |data| <= 252
    ensures VendorElem(data).Encodable() && Wire(VendorElem(data)) == [221, |data| + 3, 1, 2, 3] + data
  {}

  function VendorElems(chunks: seq<seq<byte>>): seq<Elem> {
    seq(|chunks|, i requires 0 <= i < |chunks| => VendorElem(chunks[i]))
  }

  function Chunks(data: seq<byte>): (r: seq<seq<byte>>)
    ensures Flatten(r) == data
    ensures |r| == NIes(|data|)
    ensures forall i :: 0 <= i < |r| ==> 0 < |r[i]| <= CHUNK
    ensures NulFree(data) ==> forall i :: 0 <= i < |r| ==> NulFree(r[i])
  {
    if data == [] then []
    else if |data| <= CHUNK then
      assert Flatten([data]) == data + Flatten([data][1..]);
      [data]
    else
      var rest := Chunks(data[CHUNK..]);
      assert ([data[..CHUNK]] + rest)[1..] == rest;
      [data[..CHUNK]] + rest
  }

  /** Where chunk number i ends in n bytes. */
  function ChunkEnd(n: nat, i: nat): nat {
    if (i + 1) * CHUNK <= n then (i + 1) * CHUNK else n
  }

  lemma ChunkOfRest(data: seq<byte>, i: nat)
    requires 1 <= i && i * CHUNK < |data|
    ensures var lo, hi := i * CHUNK, ChunkEnd(|data|, i);
      && CHUNK <= lo <= hi <= |data| && ChunkEnd(|data| - CHUNK, i - 1) == hi - CHUNK
      && data[CHUNK..][lo - CHUNK..hi - CHUNK] == data[lo..hi]
  {}

  lemma {:induction false} ChunkAt(data: seq<byte>, i: nat)
    requires i < NIes(|data|)
    ensures i * CHUNK <= ChunkEnd(|data|, i) <= |data|
    ensures Chunks(data)[i] == data[i * CHUNK..ChunkEnd(|data|, i)]
  {
    if |data| > CHUNK && i > 0 {
      ChunkAt(data[CHUNK..], i - 1);
      ChunkOfRest(data, i);
      assert (i - 1) * CHUNK == i * CHUNK - CHUNK;
    }
  }

  datatype Stamp = Stamp(sec: nat, usec: nat) {
    /** What gettimeofday can hand to two unsigned ints. */
    predicate Valid() { sec < 0x1_0000_0000 && usec < 1_000_000 }

    function Text(): seq<byte> { Padded(sec, 12) + Padded(usec, 6) }
  }

  /** The 18 digits are the time in microseconds. */
  lemma StampReadsBack(t: Stamp)
    requires t.Valid()
    ensures Atoi(t.Text()) == t.sec * 1_000_000 + t.usec
  {
    StampWidth(t);
    PaddedWidth(t.usec, 6) by { assert Pow10(6) == 10 * 10 * 10 * 10 * Pow10(2) && Pow10(2) == 10 * 10 * Pow10(0); }
    assert Pow10(6) == 1_000_000 by { assert Pow10(6) == 10 * 10 * 10 * 10 * Pow10(2) && Pow10(2) == 10 * 10 * Pow10(0); }
    AtoiAppend(Padded(t.sec, 12), Padded(t.usec, 6));
    AtoiOfPadded(t.sec, 12);
    AtoiOfPadded(t.usec, 6);
  }

  lemma StampWidth(t: Stamp)
    requires t.Valid()
    ensures |t.Text()| == 18 && AllDigits(t.Text())
  {
    calc {
      Pow10(12);
      10 * 10 * 10 * 10 * 10 * 10 * Pow10(6);
      1_000_000 * Pow10(6);
    }
    assert Pow10(6) == 10 * 10 * 10 * 10 * 10 * 10 * Pow10(0);
    PaddedWidth(t.sec, 12);
    PaddedWidth(t.usec, 6);
  }

  function HeaderText(seqNum: nat, stamp: Stamp, mfb: nat): seq<byte> {
    Padded(seqNum, 8) + stamp.Text() + Digits(mfb)
  }

  const SEQ_LIMIT: nat := 100_000_000

  lemma HeaderWidth(seqNum: nat, stamp: Stamp, mfb: nat)
    requires seqNum < SEQ_LIMIT && stamp.Valid() && mfb < 10
    ensures |Padded(seqNum, 8)| == 8 && |HeaderText(seqNum, stamp, mfb)| == 27
    ensures AllDigits(HeaderText(seqNum, stamp, mfb))
    ensures var h := HeaderText(seqNum, stamp, mfb);
      h[..8] == Padded(seqNum, 8) && h[8..26] == stamp.Text() && h[26..] == Digits(mfb)
  {
    assert Pow10(8) == 10 * 10 * 10 * 10 * Pow10(4);
    assert Pow10(4) == 10 * 10 * 10 * 10 * Pow10(0);
    PaddedWidth(seqNum, 8);
    StampWidth(stamp);
  }

  function FrameElems(seqNum: nat, stamp: Stamp, mfb: nat, data: seq<byte>): seq<Elem> {
    [VendorElem(HeaderText(seqNum, stamp, mfb))] + VendorElems(Chunks(data))
  }

  lemma FrameElemsEncodable(seqNum: nat, stamp: Stamp, mfb: nat, data: seq<byte>)
    requires seqNum < SEQ_LIMIT && stamp.Valid() && mfb < 10
    ensures Encodable(FrameElems(seqNum, stamp, mfb, data)) && NoMic(FrameElems(seqNum, stamp, mfb, data))
  {
    HeaderWidth(seqNum, stamp, mfb);
  }

  /** The bytes handed to the kernel for one probe request. */
  function Frame(seqNum: nat, stamp: Stamp, mfb: nat, data: seq<byte>): seq<byte>
    requires seqNum < SEQ_LIMIT && stamp.Valid() && mfb < 10
  {
    FrameElemsEncodable(seqNum, stamp, mfb, data);
    WireAll(FrameElems(seqNum, stamp, mfb, data))
  }

  lemma {:induction false} VendorElemsSize(chunks: seq<seq<byte>>)
    requires Encodable(VendorElems(chunks))
    ensures |WireAll(VendorElems(chunks))| == |Flatten(chunks)| + 5 * |chunks|
  {
    if chunks != [] {
      var es := VendorElems(chunks);
      assert es[1..] == VendorElems(chunks[1..]);
      VendorElemsSize(chunks[1..]);
    }
  }

  lemma NIesBound(len: nat)
    ensures len <= MAX_DATA ==> NIes(len) <= 6
    ensures 1390 < len <= MAX_DATA ==> NIes(len) == 6
  {}

  /**
   A frame with n payload bytes takes 32 + n + 5 * ceil(n / 252) bytes. The
   client's budget of 1452 counts four bytes of overhead per element where
   five are written, so every frame with more than 1390 bytes overruns it.
   */
  lemma FrameSize(seqNum: nat, stamp: Stamp, mfb: nat, data: seq<byte>)
    requires seqNum < SEQ_LIMIT && stamp.Valid() && mfb < 10
    ensures |Frame(seqNum, stamp, mfb, data)| == 32 + |data| + 5 * NIes(|data|)
    ensures |data| <= MAX_DATA ==> |Frame(seqNum, stamp, mfb, data)| <= 1456
    ensures |data| <= MAX_DATA ==> (|Frame(seqNum, stamp, mfb, data)| > IE_BUDGET <==> |data| > 1390)
  {
    var es := FrameElems(seqNum, stamp, mfb, data);
    assert |WireAll(es)| == 32 + |data| + 5 * NIes(|data|) by {
      HeaderWidth(seqNum, stamp, mfb);
      FrameElemsEncodable(seqNum, stamp, mfb, data);
      assert es[1..] == VendorElems(Chunks(data));
      VendorElemsSize(Chunks(data));
    }
    NIesBound(|data|);
  }

  // ----- client: cutting the message -----

  function NFrames(msg: seq<byte>): nat {
    (|msg| + MAX_DATA - 1) / MAX_DATA
  }

  function Min(a: int, b: int): int {
    if a < b then a else b
  }

  function Payload(msg: seq<byte>, s: nat): seq<byte>
    requires s < NFrames(msg)
  {
    msg[s * MAX_DATA..Min((s + 1) * MAX_DATA, |msg|)]
  }

  function MoreFragments(msg: seq<byte>, s: nat): nat {
    if s + 1 < NFrames(msg) then 1 else 0
  }

  /** Every payload but the last is full. */
  lemma PayloadSize(msg: seq<byte>, s: nat)
    requires s < NFrames(msg)
    ensures |Payload(msg, s)| == if MoreFragments(msg, s) == 1 then 1394 else |msg| - 1394 * s
    ensures 0 < |Payload(msg, s)| <= 1394
  {}

  function Payloads(msg: seq<byte>, n: nat): seq<seq<byte>>
    requires n <= NFrames(msg)
  {
    seq(n, i requires 0 <= i < n => Payload(msg, i))
  }

  /** The payloads in order are the message, cut short after n frames. */
  lemma {:induction false} PayloadsConcatenate(msg: seq<byte>, n: nat)
    requires n <= NFrames(msg)
    ensures Flatten(Payloads(msg, n)) == msg[..Min(n * MAX_DATA, |msg|)]
    ensures n == NFrames(msg) ==> Flatten(Payloads(msg, n)) == msg
  {
    if n > 0 {
      PayloadsConcatenate(msg, n - 1);
      assert Payloads(msg, n) == Payloads(msg, n - 1) + [Payload(msg, n - 1)];
      FlattenSnoc(Payloads(msg, n - 1), Payload(msg, n - 1));
    }
  }

  // ----- access point: reassembly and acknowledgement -----

  datatype Received = Received(seqNum: nat, timestamp: seq<byte>, mfb: nat, data: seq<byte>)

  /** strncpy(dst, s + from, n) followed by writing the terminator. */
  function Strncpy(s: seq<byte>, from: nat, n: nat): seq<byte> {
    if from >= |s| then [] else s[from..Min(from + n, |s|)]
  }

  /** The stuffed data after the OUI, as copied into a NUL-terminated buffer. */
  function StuffedText(body: seq<byte>): seq<byte> {
    if |body| < 3 then [] else CString(body[3..])
  }

  function StuffedTexts(bodies: seq<seq<byte>>): seq<seq<byte>> {
    seq(|bodies|, i requires 0 <= i < |bodies| => StuffedText(bodies[i]))
  }

  function Reassemble(stuffed: seq<seq<byte>>): Option<Received> {
    if stuffed == [] then None
    else
      var header := StuffedText(stuffed[0]);
      Some(Received(Atoi(Strncpy(header, 0, 8)), Strncpy(header, 8, 18),
                    Atoi(Strncpy(header, 26, 1)), Flatten(StuffedTexts(stuffed[1..]))))
  }

  /** Of any header long enough, the fields are read at their places, and what stands behind them is ignored. */
  lemma HeaderFields(h: seq<byte>, more: seq<seq<byte>>)
    requires NulFree(h) && |h| >= 27
    ensures Reassemble([OUI + h] + more)
         == Some(Received(Atoi(h[..8]), h[8..26], Atoi([h[26]]), Flatten(StuffedTexts(more))))
  {
    assert (OUI + h)[3..] == h;
    assert h[0..8] == h[..8] && h[26..27] == [h[26]];
    assert ([OUI + h] + more)[1..] == more;
  }

  /** What the access point makes of the elements of a probe request. */
  function ApReceive(ies: seq<byte>): Option<Received> {
    match ParseElems(ies)
    case None => None
    case Some(es) => Reassemble(StuffedBodies(es))
  }

  function AckElem(seqNum: nat): Elem {
    VendorElem(Digits(seqNum))
  }

  lemma FirstStuffed(chunk: seq<byte>, rest: seq<seq<byte>>)
    requires NulFree(chunk)
    ensures StuffedTexts([OUI + chunk] + rest) == [chunk] + StuffedTexts(rest)
  {
    assert (OUI + chunk)[3..] == chunk;
    assert ([OUI + chunk] + rest)[1..] == rest;
  }

  lemma {:induction false} StuffedOfVendorElems(chunks: seq<seq<byte>>)
    requires forall i :: 0 <= i < |chunks| ==> chunks[i] != [] && NulFree(chunks[i])
    ensures StuffedTexts(StuffedBodies(VendorElems(chunks))) == chunks
  {
    if chunks != [] {
      var es := VendorElems(chunks);
      assert es[1..] == VendorElems(chunks[1..]);
      StuffedOfVendorElems(chunks[1..]);
      assert IsStuffed(es[0]) by { assert (OUI + chunks[0])[..3] == OUI; }
      FirstStuffed(chunks[0], StuffedBodies(es[1..]));
    }
  }

  lemma ReassembleOfFrame(seqNum: nat, stamp: Stamp, mfb: nat, data: seq<byte>)
    requires seqNum < SEQ_LIMIT && stamp.Valid() && mfb < 10 && NulFree(data)
    ensures Reassemble(StuffedBodies(FrameElems(seqNum, stamp, mfb, data)))
         == Some(Received(seqNum, stamp.Text(), mfb, data))
  {
    var h := HeaderText(seqNum, stamp, mfb);
    HeaderWidth(seqNum, stamp, mfb);
    StampWidth(stamp);
    var es := FrameElems(seqNum, stamp, mfb, data);
    assert es[1..] == VendorElems(Chunks(data));
    StuffedOfVendorElems(Chunks(data));
    assert (OUI + h)[3..] == h;
    assert h[0..8] == Padded(seqNum, 8) && h[8..26] == stamp.Text() && h[26..27] == Digits(mfb);
    AtoiOfPadded(seqNum, 8);
    AtoiOfDigits(mfb);
    var bodies := StuffedBodies(es);
    assert bodies == [OUI + h] + StuffedBodies(es[1..]);
    assert bodies[1..] == StuffedBodies(es[1..]);
  }

  /** A set of other elements the kernel or the radio puts around the stuffed ones. */
  predicate Surroundings(es: seq<Elem>) {
    Encodable(es) && NoMic(es) && NoneStuffed(es)
  }

  function OnAir(pre: seq<Elem>, frame: seq<byte>, post: seq<Elem>): seq<byte>
    requires Encodable(pre) && Encodable(post)
  {
    WireAll(pre) + frame + WireAll(post)
  }

  lemma ParseOnAir(pre: seq<Elem>, es: seq<Elem>, post: seq<Elem>)
    requires Surroundings(pre) && Surroundings(post) && Encodable(es) && NoMic(es)
    ensures ParseElems(OnAir(pre, WireAll(es), post)) == Some(pre + es + post)
    ensures StuffedBodies(pre + es + post) == StuffedBodies(es)
  {
    WireAllAppend(pre, es);
    WireAllAppend(pre + es, post);
    ParseOfWire(pre + es + post, []);
    assert WireAll(pre + es + post) + [] == WireAll(pre + es + post) && (pre + es + post) + [] == pre + es + post;
    StuffedBodiesAppend(pre, es);
    StuffedBodiesAppend(pre + es, post);
    StuffedBodiesNone(pre);
    StuffedBodiesNone(post);
  }

  /** The access point recovers sequence number, timestamp, fragment bit and payload. */
  lemma FrameRoundTrip(seqNum: nat, stamp: Stamp, mfb: nat, data: seq<byte>, pre: seq<Elem>, post: seq<Elem>)
    requires seqNum < SEQ_LIMIT && stamp.Valid() && mfb < 10 && NulFree(data)
    requires Surroundings(pre) && Surroundings(post)
    ensures ApReceive(OnAir(pre, Frame(seqNum, stamp, mfb, data), post))
         == Some(Received(seqNum, stamp.Text(), mfb, data))
  {
    FrameElemsEncodable(seqNum, stamp, mfb, data);
    ParseOnAir(pre, FrameElems(seqNum, stamp, mfb, data), post);
    ReassembleOfFrame(seqNum, stamp, mfb, data);
  }

  // ----- client: reading the acknowledgement -----

  /** extract_ack_from_vendor_ie and atoi on one element. */
  function AckOfElem(id: byte, body: seq<byte>): Option<nat> {
    if id == VENDOR_SPECIFIC && |body| >= 4 && body[..3] == OUI
    then Some(Atoi(CString(body[3..])))
    else None
  }

  /**
   The walk of get_ack over the elements of one probe response; the last
   acknowledgement wins. The walk stops at an element that runs past the end.
   */
  function AckIn(ies: seq<byte>, ack: Option<nat>): Option<nat>
    decreases |ies|
  {
    if |ies| < 2 || |ies| < ies[1] as int + 2 then ack
    else
      var here := AckOfElem(ies[0], ies[2..2 + ies[1]]);
      AckIn(ies[2 + ies[1]..], if here.Some? then here else ack)
  }

  lemma WalkedOne(e: Elem, tail: seq<byte>)
    requires e.Encodable()
    ensures var s := Wire(e) + tail;
      |s| >= |e.body| + 2 && s[0] == e.id && s[1] == |e.body| && s[2..2 + |e.body|] == e.body && s[2 + |e.body|..] == tail
  {}

  lemma AckInOne(e: Elem, tail: seq<byte>, ack: Option<nat>)
    requires e.Encodable()
    ensures var here := AckOfElem(e.id, e.body);
      AckIn(Wire(e) + tail, ack) == AckIn(tail, if here.Some? then here else ack)
  {
    WalkedOne(e, tail);
  }

  lemma {:induction false} AckInAppend(es: seq<Elem>, tail: seq<byte>, ack: Option<nat>)
    requires Encodable(es) && NoneStuffed(es)
    ensures AckIn(WireAll(es) + tail, ack) == AckIn(tail, ack)
  {
    if es == [] {
      assert WireAll(es) + tail == tail;
    } else {
      WireFirst(es, tail);
      AckInOne(es[0], WireAll(es[1..]) + tail, ack);
      AckInAppend(es[1..], tail, ack);
    }
  }

  /** The client reads back the sequence number the access point acknowledged. */
  lemma AckRoundTrip(seqNum: nat, pre: seq<Elem>, post: seq<Elem>, ack: Option<nat>)
    requires seqNum < SEQ_LIMIT && Surroundings(pre) && Surroundings(post)
    ensures AckElem(seqNum).Encodable()
    ensures AckIn(OnAir(pre, Wire(AckElem(seqNum)), post), ack) == Some(seqNum)
  {
    var d := Digits(seqNum);
    assert Pow10(8) == 10 * 10 * 10 * 10 * Pow10(4);
    assert Pow10(4) == 10 * 10 * 10 * 10 * Pow10(0);
    DigitsWidth(seqNum, 8);
    var tail := Wire(AckElem(seqNum)) + WireAll(post);
    assert OnAir(pre, Wire(AckElem(seqNum)), post) == WireAll(pre) + tail;
    AckInAppend(pre, tail, ack);
    assert tail[2..2 + tail[1]] == OUI + d;
    assert tail[2 + tail[1]..] == WireAll(post) + [];
    assert (OUI + d)[3..] == d;
    AtoiOfDigits(seqNum);
    AckInAppend(post, [], Some(seqNum));
  }

  /** The walk gets past any elements, and what it has read by then is all that is left of them. */
  lemma {:induction false} AckInPasses(es: seq<Elem>, tail: seq<byte>, ack: Option<nat>) returns (x: Option<nat>)
    requires Encodable(es)
    ensures AckIn(WireAll(es) + tail, ack) == AckIn(tail, x)
  {
    if es == [] {
      assert WireAll(es) + tail == tail;
      x := ack;
    } else {
      var here := AckOfElem(es[0].id, es[0].body);
      WireFirst(es, tail);
      AckInOne(es[0], WireAll(es[1..]) + tail, ack);
      x := AckInPasses(es[1..], tail, if here.Some? then here else ack);
    }
  }

  /** Of several acknowledgements in one response the last is read, whatever stands before it. */
  lemma LastAckWins(pre: seq<Elem>, seqNum: nat, post: seq<Elem>, ack: Option<nat>)
    requires Encodable(pre) && seqNum < SEQ_LIMIT && Surroundings(post)
    ensures AckElem(seqNum).Encodable() && AckIn(OnAir(pre, Wire(AckElem(seqNum)), post), ack) == Some(seqNum)
  {
    AckRoundTrip(seqNum, [], post, ack);
    var tail := Wire(AckElem(seqNum)) + WireAll(post);
    assert OnAir(pre, Wire(AckElem(seqNum)), post) == WireAll(pre) + tail;
    var x := AckInPasses(pre, tail, ack);
    AckRoundTrip(seqNum, [], post, x);
    assert OnAir([], Wire(AckElem(seqNum)), post) == tail;
  }
}
