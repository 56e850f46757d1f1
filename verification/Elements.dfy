/**
 IEEE 802.11 information elements: id byte, length byte, body. The access
 point's walk is ieee802_11_parse_elems; the collected elements are those of
 the probe-stuffing vendor, OUI 01:02:03.
 */
module Elements {
  import opened Bytes

  const VENDOR_SPECIFIC: byte := 221
  const MIC: byte := 140

  datatype Elem = Elem(id: byte, body: seq<byte>) {
    predicate Encodable() { |body| <= 255 }
  }

  const OUI: seq<byte> := [1, 2, 3]

  function Wire(e: Elem): seq<byte>
    requires e.Encodable()
  {
    [e.id, |e.body|] + e.body
  }

  predicate Encodable(es: seq<Elem>) {
    forall i :: 0 <= i < |es| ==> es[i].Encodable()
  }

  function WireAll(es: seq<Elem>): seq<byte>
    requires Encodable(es)
  {
    if es == [] then [] else Wire(es[0]) + WireAll(es[1..])
  }

  lemma {:induction false} WireAllAppend(xs: seq<Elem>, ys: seq<Elem>)
    requires Encodable(xs) && Encodable(ys)
    ensures WireAll(xs + ys) == WireAll(xs) + WireAll(ys)
  {
    if xs == [] {
      assert xs + ys == ys;
    } else {
      assert (xs + ys)[1..] == xs[1..] + ys;
      WireAllAppend(xs[1..], ys);
    }
  }

  /**
   The element walk of ieee802_11_parse_elems: None for ParseFailed. A MIC
   element ends the walk, the rest being encrypted.
   */
  function ParseElems(s: seq<byte>): Option<seq<Elem>> {
    if |s| < 2 then
      if s == [] then Some([]) else None
    else
      var elen := s[1];
      if elen > |s| - 2 then None
      else
        var e := Elem(s[0], s[2..2 + elen]);
        if e.id == MIC then Some([e])
        else
          match ParseElems(s[2 + elen..])
          case None => None
          case Some(rest) => Some([e] + rest)
  }

  predicate NoMic(es: seq<Elem>) {
    forall i :: 0 <= i < |es| ==> es[i].id != MIC
  }

  /** Elements read, then whatever follows. */
  function Before(es: seq<Elem>, rest: Option<seq<Elem>>): Option<seq<Elem>> {
    if rest.None? then None else Some(es + rest.value)
  }

  lemma BeforeBoth(es: seq<Elem>, rest: Option<seq<Elem>>)
    requires es != []
    ensures Before([es[0]], Before(es[1..], rest)) == Before(es, rest)
  {
    if rest.Some? {
      assert [es[0]] + (es[1..] + rest.value) == es + rest.value;
    }
  }

  lemma ParseOne(e: Elem, tail: seq<byte>)
    requires e.Encodable() && e.id != MIC
    ensures ParseElems(Wire(e) + tail) == Before([e], ParseElems(tail))
  {
    var s := Wire(e) + tail;
    assert s[..2] == [e.id, |e.body|];
    assert s[2..2 + |e.body|] == e.body && s[2 + |e.body|..] == tail;
  }

  lemma WireFirst(es: seq<Elem>, tail: seq<byte>)
    requires Encodable(es) && es != []
    ensures WireAll(es) + tail == Wire(es[0]) + (WireAll(es[1..]) + tail)
  {}

  /** Encoded elements are read back one by one, and the walk goes on with whatever follows them. */
  lemma {:induction false} ParseOfWire(es: seq<Elem>, tail: seq<byte>)
    requires Encodable(es) && NoMic(es)
    ensures ParseElems(WireAll(es) + tail) == Before(es, ParseElems(tail))
  {
    var more := ParseElems(tail);
    if es == [] {
      assert WireAll(es) + tail == tail;
      assert more.Some? ==> es + more.value == more.value;
    } else {
      ParseOfWire(es[1..], tail);
      ParseOne(es[0], WireAll(es[1..]) + tail);
      WireFirst(es, tail);
      BeforeBoth(es, more);
    }
  }

  /** A MIC element ends the walk, whatever follows. */
  lemma MicEnds(es: seq<Elem>, mic: Elem, rest: seq<byte>)
    requires Encodable(es) && NoMic(es) && mic.Encodable() && mic.id == 140
    ensures ParseElems(WireAll(es) + (Wire(mic) + rest)) == Some(es + [mic])
  {
    var tail := Wire(mic) + rest;
    assert tail[2..2 + |mic.body|] == mic.body;
    ParseOfWire(es, tail);
  }

  /** What is read is what was written: all of it, or all up to a MIC element. */
  lemma {:induction false} ParsedIsWritten(s: seq<byte>)
    requires ParseElems(s).Some?
    ensures var es := ParseElems(s).value;
      && Encodable(es) && WireAll(es) <= s
      && (WireAll(es) == s || (es != [] && es[|es| - 1].id == 140))
      && forall i :: 0 <= i < |es| - 1 ==> es[i].id != 140
    decreases |s|
  {
    if s != [] {
      var e, tail := Elem(s[0], s[2..2 + s[1]]), s[2 + s[1]..];
      assert s == Wire(e) + tail;
      if e.id == MIC {
        assert WireAll([e]) == Wire(e) + WireAll([e][1..]);
      } else {
        ParsedIsWritten(tail);
        var rest := ParseElems(tail).value;
        assert ([e] + rest)[1..] == rest;
      }
    }
  }

  /** An element that announces more bytes than are left makes the walk fail, and so does a single byte. */
  lemma CutShortFails(es: seq<Elem>, tail: seq<byte>)
    requires Encodable(es) && NoMic(es) && (|tail| == 1 || (|tail| >= 2 && tail[1] as int > |tail| - 2))
    ensures ParseElems(WireAll(es) + tail) == None
  {
    ParseOfWire(es, tail);
  }

  /** The elements ieee802_11_parse_vendor_specific records as stuffed data. */
  predicate IsStuffed(e: Elem) {
    e.id == VENDOR_SPECIFIC && |e.body| >= 4 && e.body[..3] == OUI
  }

  /** elems.stuffed_data: bodies of the stuffed elements, in order of appearance. */
  function StuffedBodies(es: seq<Elem>): seq<seq<byte>> {
    if es == [] then []
    else if IsStuffed(es[0]) then [es[0].body] + StuffedBodies(es[1..])
    else StuffedBodies(es[1..])
  }

  lemma {:induction false} StuffedBodiesAppend(xs: seq<Elem>, ys: seq<Elem>)
    ensures StuffedBodies(xs + ys) == StuffedBodies(xs) + StuffedBodies(ys)
  {
    if xs == [] {
      assert xs + ys == ys;
    } else {
      assert (xs + ys)[1..] == xs[1..] + ys;
      StuffedBodiesAppend(xs[1..], ys);
    }
  }

  predicate NoneStuffed(es: seq<Elem>) {
    forall i :: 0 <= i < |es| ==> !IsStuffed(es[i])
  }

  lemma {:induction false} StuffedBodiesNone(es: seq<Elem>)
    requires NoneStuffed(es)
    ensures StuffedBodies(es) == []
  {
    if es != [] {
      StuffedBodiesNone(es[1..]);
    }
  }

  /** With stuffed collected so far and the cursor at pos, the walk is on its way to its result. */
  predicate OnTheWay(s: seq<byte>, pos: nat, stuffed: seq<seq<byte>>)
    requires pos <= |s|
  {
    var all, rest := ParseElems(s), ParseElems(s[pos..]);
    all.None? == rest.None? && (all.Some? ==> StuffedBodies(all.value) == stuffed + StuffedBodies(rest.value))
  }

  /** One turn of the walk. */
  lemma ParseHead(s: seq<byte>, pos: nat, stuffed: seq<seq<byte>>, e: Elem)
    requires pos + 2 <= |s| && pos + 2 + s[pos + 1] as int <= |s| && s[pos] != MIC
    requires e == Elem(s[pos], s[pos + 2..pos + 2 + s[pos + 1]])
    requires OnTheWay(s, pos, stuffed)
    ensures OnTheWay(s, pos + 2 + s[pos + 1], if IsStuffed(e) then stuffed + [e.body] else stuffed)
  {
    var t := s[pos..];
    assert t[2..2 + t[1]] == e.body && t[2 + t[1]..] == s[pos + 2 + s[pos + 1]..];
    var rest := ParseElems(t[2 + t[1]..]);
    if rest.Some? {
      assert ([e] + rest.value)[1..] == rest.value;
    }
  }

  lemma ParseMic(s: seq<byte>)
    requires |s| >= 2 && s[1] as int <= |s| - 2 && s[0] == MIC
    ensures ParseElems(s).Some? && StuffedBodies(ParseElems(s).value) == []
  {
    var e := Elem(s[0], s[2..2 + s[1]]);
    assert StuffedBodies([e]) == StuffedBodies([e][1..]);
  }

  /** The walk as the access point runs it: a cursor over the received bytes. */
  method ParseStuffed(s: seq<byte>) returns (failed: bool, stuffed: seq<seq<byte>>)
    ensures failed == ParseElems(s).None?
    ensures !failed ==> stuffed == StuffedBodies(ParseElems(s).value)
  {
    var pos, left := 0, |s|;
    stuffed := [];
    while left >= 2
      invariant 0 <= pos <= |s| && left == |s| - pos
      invariant OnTheWay(s, pos, stuffed)
    {
      var id, elen: int := s[pos], s[pos + 1];
      if elen > left - 2 {
        return true, stuffed;
      }
      if id == MIC {
        ParseMic(s[pos..]);
        return false, stuffed;
      }
      var body := s[pos + 2..pos + 2 + elen];
      ParseHead(s, pos, stuffed, Elem(id, body));
      if id == VENDOR_SPECIFIC && elen >= 4 && body[..3] == OUI {
        stuffed := stuffed + [body];
      }
      left := left - 2 - elen;
      pos := pos + 2 + elen;
    }
    assert left == 0 ==> s[pos..] == [];
    failed := left != 0;
  }
}
