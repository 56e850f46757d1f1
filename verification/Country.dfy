/**
 The Country element (section 8.4.2.10 of IEEE Std 802.11-2012): runs of
 evenly spaced channels with one transmit power become one triplet each.
 */
module Country {
  import opened Bytes

  const WLAN_EID_COUNTRY: byte := 7

  datatype Channel = Channel(chan: int, disabled: bool, maxTxPower: byte)

  /** Channel numbers are four apart in the 5 GHz band, one apart otherwise. */
  predicate IsSpacing(spacing: int) { spacing == 1 || spacing == 4 }

  function Enabled(cs: seq<Channel>): seq<Channel> {
    if cs == [] then []
    else
      var n := |cs| - 1;
      Enabled(cs[..n]) + if cs[n].disabled then [] else [cs[n]]
  }

  /** A run of channels, from the first to the last. */
  datatype Group = Group(start: Channel, prev: Channel)

  predicate Joins(g: Group, c: Channel, spacing: int) {
    g.prev.chan + spacing == c.chan && g.start.maxTxPower == c.maxTxPower
  }

  /** The runs of a list of enabled channels, in order. */
  function Groups(cs: seq<Channel>, spacing: int): (r: seq<Group>)
    ensures r == [] <==> cs == []
  {
    if cs == [] then []
    else
      var n := |cs| - 1;
      var gs := Groups(cs[..n], spacing);
      if gs != [] && Joins(gs[|gs| - 1], cs[n], spacing) then
        gs[|gs| - 1 := gs[|gs| - 1].(prev := cs[n])]
      else
        gs + [Group(cs[n], cs[n])]
  }

  function U8(x: int): byte { x % 256 }

  function Triplet(g: Group, spacing: int): (t: seq<byte>)
    requires IsSpacing(spacing)
    ensures |t| == 3
  {
    [U8(g.start.chan), U8((g.prev.chan - g.start.chan) / spacing + 1), g.start.maxTxPower]
  }

  /** Triplets for the groups in turn, each dropped when it does not fit into what is left of room. */
  function Emitted(gs: seq<Group>, spacing: int, room: nat): (r: seq<byte>)
    requires IsSpacing(spacing)
    ensures |r| <= room
  {
    if gs == [] then []
    else
      var n := |gs| - 1;
      var e := Emitted(gs[..n], spacing, room);
      if room - |e| < 3 then e else e + Triplet(gs[n], spacing)
  }

  // ----- writing the element -----

  method EidCountryAdd(buf: array<byte>, pos: nat, spacing: int, start: Channel, prev: Channel) returns (pos': nat)
    requires pos <= buf.Length && IsSpacing(spacing)
    modifies buf
    ensures pos' == if buf.Length - pos < 3 then pos else pos + 3
    ensures buf[..pos'] == old(buf[..pos]) + if buf.Length - pos < 3 then [] else Triplet(Group(start, prev), spacing)
  {
    if buf.Length - pos < 3 {
      return pos;
    }
    buf[pos] := U8(start.chan);
    buf[pos + 1] := U8((prev.chan - start.chan) / spacing + 1);
    buf[pos + 2] := start.maxTxPower;
    assert buf[..pos + 3] == buf[..pos] + Triplet(Group(start, prev), spacing);
    return pos + 3;
  }

  /** Header, triplets and padding to an even length; nothing when there is no room for the padding. */
  function Framed(country: seq<byte>, e: seq<byte>, maxLen: nat): seq<byte> {
    var total := 5 + |e|;
    if total % 2 == 0 then [WLAN_EID_COUNTRY, U8(total - 2)] + country + e
    else if total == maxLen then []
    else [WLAN_EID_COUNTRY, U8(total + 1 - 2)] + country + (e + [0])
  }

  /** The element for a buffer of maxLen bytes; empty when it cannot be written. */
  function Element(country: seq<byte>, cs: seq<Channel>, spacing: int, maxLen: nat): seq<byte>
    requires IsSpacing(spacing) && |country| == 3
  {
    if maxLen < 6 then []
    else Framed(country, Emitted(Groups(Enabled(cs), spacing), spacing, maxLen - 5), maxLen)
  }

  /** Close the last of the groups found so far. */
  method AddGroup(buf: array<byte>, pos: nat, spacing: int, ghost gs: seq<Group>, g: Group, ghost country: seq<byte>)
    returns (pos': nat)
    requires 5 <= pos <= buf.Length && IsSpacing(spacing) && gs != [] && g == gs[|gs| - 1]
    requires buf[0] == WLAN_EID_COUNTRY && buf[2..5] == country
    requires buf[5..pos] == Emitted(gs[..|gs| - 1], spacing, buf.Length - 5)
    modifies buf
    ensures 5 <= pos' <= buf.Length && buf[0] == WLAN_EID_COUNTRY && buf[2..5] == country
    ensures buf[5..pos'] == Emitted(gs, spacing, buf.Length - 5)
  {
    ghost var was := buf[..pos];
    assert was[0] == buf[0] && was[2..5] == buf[2..5] && was[5..] == buf[5..pos];
    pos' := EidCountryAdd(buf, pos, spacing, g.start, g.prev);
    ghost var t := if buf.Length - pos < 3 then [] else Triplet(g, spacing);
    Behind(was, t);
    assert buf[..pos'][0] == buf[0] && buf[..pos'][2..5] == buf[2..5] && buf[..pos'][5..] == buf[5..pos'];
  }

  lemma Behind(s: seq<byte>, t: seq<byte>)
    requires |s| >= 5
    ensures (s + t)[0] == s[0] && (s + t)[2..5] == s[2..5] && (s + t)[5..] == s[5..] + t
  {}

  lemma GroupsStep(cs: seq<Channel>, c: Channel, spacing: int)
    ensures var gs, gs' := Groups(cs, spacing), Groups(cs + [c], spacing);
      if gs != [] && Joins(gs[|gs| - 1], c, spacing) then
        |gs'| == |gs| && gs'[..|gs| - 1] == gs[..|gs| - 1] && gs'[|gs| - 1] == gs[|gs| - 1].(prev := c)
      else gs' == gs + [Group(c, c)]
  {
    assert (cs + [c])[..|cs|] == cs;
  }

  lemma EnabledStep(cs: seq<Channel>, i: nat)
    requires i < |cs|
    ensures Enabled(cs[..i + 1]) == if cs[i].disabled then Enabled(cs[..i]) else Enabled(cs[..i]) + [cs[i]]
  {
    assert cs[..i + 1][..i] == cs[..i];
  }

  /** All groups but the last, still open, one are in the buffer. */
  ghost predicate Progress(buf: array<byte>, pos: nat, country: seq<byte>, gs: seq<Group>, spacing: int,
                           open: Option<Group>)
    requires IsSpacing(spacing)
    reads buf
  {
    && 5 <= pos <= buf.Length && buf[0] == WLAN_EID_COUNTRY && buf[2..5] == country
    && if gs == [] then open == None && pos == 5
       else open == Some(gs[|gs| - 1]) && buf[5..pos] == Emitted(gs[..|gs| - 1], spacing, buf.Length - 5)
  }

  lemma Extended(buf: array<byte>, pos: nat, country: seq<byte>, before: seq<Channel>, c: Channel, spacing: int,
                 g: Group)
    requires IsSpacing(spacing) && Progress(buf, pos, country, Groups(before, spacing), spacing, Some(g))
    requires Joins(g, c, spacing)
    ensures Progress(buf, pos, country, Groups(before + [c], spacing), spacing, Some(g.(prev := c)))
  {
    GroupsStep(before, c, spacing);
  }

  lemma Opened(buf: array<byte>, pos: nat, country: seq<byte>, before: seq<Channel>, c: Channel, spacing: int)
    requires IsSpacing(spacing) && 5 <= pos <= buf.Length && buf[0] == WLAN_EID_COUNTRY && buf[2..5] == country
    requires buf[5..pos] == Emitted(Groups(before, spacing), spacing, buf.Length - 5)
    requires var gs := Groups(before, spacing); gs != [] ==> !Joins(gs[|gs| - 1], c, spacing)
    ensures Progress(buf, pos, country, Groups(before + [c], spacing), spacing, Some(Group(c, c)))
  {
    var gs := Groups(before, spacing);
    GroupsStep(before, c, spacing);
    assert (gs + [Group(c, c)])[..|gs|] == gs;
  }

  /** The next enabled channel extends the open group, or closes it and opens another. */
  method AddChannel(buf: array<byte>, pos: nat, ghost country: seq<byte>, ghost before: seq<Channel>, c: Channel,
                    spacing: int, open: Option<Group>)
    returns (pos': nat, open': Option<Group>)
    requires IsSpacing(spacing) && Progress(buf, pos, country, Groups(before, spacing), spacing, open)
    modifies buf
    ensures Progress(buf, pos', country, Groups(before + [c], spacing), spacing, open')
  {
    if open.Some? && Joins(open.value, c, spacing) {
      Extended(buf, pos, country, before, c, spacing, open.value);
      return pos, Some(open.value.(prev := c));
    }
    pos' := pos;
    if open.Some? {
      pos' := AddGroup(buf, pos, spacing, Groups(before, spacing), open.value, country);
    }
    open' := Some(Group(c, c));
    Opened(buf, pos', country, before, c, spacing);
  }

  method AddChannels(buf: array<byte>, ghost country: seq<byte>, cs: seq<Channel>, spacing: int) returns (pos: nat)
    requires buf.Length >= 5 && IsSpacing(spacing)
    requires buf[0] == WLAN_EID_COUNTRY && buf[2..5] == country
    modifies buf
    ensures 5 <= pos <= buf.Length && buf[0] == WLAN_EID_COUNTRY && buf[2..5] == country
    ensures buf[5..pos] == Emitted(Groups(Enabled(cs), spacing), spacing, buf.Length - 5)
  {
    pos := 5;
    var open: Option<Group> := None;
    for i := 0 to |cs|
      invariant Progress(buf, pos, country, Groups(Enabled(cs[..i]), spacing), spacing, open)
    {
      EnabledStep(cs, i);
      if cs[i].disabled {
        continue;
      }
      pos, open := AddChannel(buf, pos, country, Enabled(cs[..i]), cs[i], spacing, open);
    }
    assert cs[..|cs|] == cs;
    if open.Some? {
      pos := AddGroup(buf, pos, spacing, Groups(Enabled(cs), spacing), open.value, country);
    }
  }

  /** hostapd_eid_country into the buffer; n is the number of bytes it takes up. */
  method EidCountry(buf: array<byte>, country: seq<byte>, cs: seq<Channel>, spacing: int) returns (n: nat)
    requires IsSpacing(spacing) && |country| == 3
    modifies buf
    ensures n <= buf.Length && buf[..n] == Element(country, cs, spacing, buf.Length)
  {
    if buf.Length < 6 {
      return 0;
    }
    buf[0] := WLAN_EID_COUNTRY;
    buf[1] := 0;
    buf[2], buf[3], buf[4] := country[0], country[1], country[2];
    assert buf[2..5] == country;
    var pos := AddChannels(buf, country, cs, spacing);
    n := Finish(buf, pos, country, buf[5..pos]);
  }

  /** Pad to an even length and set the length byte. */
  method Finish(buf: array<byte>, pos: nat, ghost country: seq<byte>, ghost e: seq<byte>) returns (n: nat)
    requires 5 <= pos <= buf.Length && |country| == 3
    requires buf[0] == WLAN_EID_COUNTRY && buf[2..5] == country && buf[5..pos] == e
    modifies buf
    ensures n <= buf.Length
    ensures buf[..n] == Framed(country, e, buf.Length)
  {
    n := pos;
    if n % 2 == 1 {
      if buf.Length - n < 1 {
        return 0;
      }
      buf[n] := 0;
      n := n + 1;
      assert buf[5..n] == e + [0];
    }
    buf[1] := U8(n - 2);
    assert buf[..n] == [buf[0], buf[1]] + buf[2..5] + buf[5..n];
  }

  // ----- reading it back -----

  datatype Trip = Trip(chan: byte, count: byte, power: byte)

  /** A station reads three bytes at a time; a single byte left over is padding. */
  function Triplets(s: seq<byte>): seq<Trip> {
    if |s| < 3 then [] else [Trip(s[0], s[1], s[2])] + Triplets(s[3..])
  }

  /** The n channels that start at chan, with their power. */
  function Expand(chan: int, n: nat, power: byte, spacing: int): (r: seq<(int, byte)>)
    ensures |r| == n
  {
    if n == 0 then [] else Expand(chan, n - 1, power, spacing) + [(chan + (n - 1) * spacing, power)]
  }

  function ExpandAll(ts: seq<Trip>, spacing: int): seq<(int, byte)> {
    if ts == [] then []
    else
      var t := ts[|ts| - 1];
      ExpandAll(ts[..|ts| - 1], spacing) + Expand(t.chan, t.count, t.power, spacing)
  }

  /** The channel list a station needs: number and power. */
  function Listed(cs: seq<Channel>): (r: seq<(int, byte)>)
    ensures |r| == |cs|
    ensures forall k :: 0 <= k < |cs| ==> r[k] == (cs[k].chan, cs[k].maxTxPower)
  {
    if cs == [] then []
    else Listed(cs[..|cs| - 1]) + [(cs[|cs| - 1].chan, cs[|cs| - 1].maxTxPower)]
  }

  /** Channel numbers are 1 .. 255. */
  predicate Numbered(cs: seq<Channel>) {
    forall k :: 0 <= k < |cs| ==> 1 <= cs[k].chan <= 255
  }

  function Size(g: Group, spacing: int): int
    requires IsSpacing(spacing)
  {
    (g.prev.chan - g.start.chan) / spacing + 1
  }

  function GroupChannels(g: Group, spacing: int): seq<(int, byte)>
    requires IsSpacing(spacing)
  {
    Expand(g.start.chan, if Size(g, spacing) < 0 then 0 else Size(g, spacing), g.start.maxTxPower, spacing)
  }

  function AllChannels(gs: seq<Group>, spacing: int): seq<(int, byte)>
    requires IsSpacing(spacing)
  {
    if gs == [] then [] else AllChannels(gs[..|gs| - 1], spacing) + GroupChannels(gs[|gs| - 1], spacing)
  }

  predicate Proper(g: Group, spacing: int)
    requires IsSpacing(spacing)
  {
    && 1 <= g.start.chan <= g.prev.chan <= 255
    && (g.prev.chan - g.start.chan) % spacing == 0
  }

  predicate AllProper(gs: seq<Group>, spacing: int)
    requires IsSpacing(spacing)
  {
    forall k :: 0 <= k < |gs| ==> Proper(gs[k], spacing)
  }

  /** Grouping loses nothing: the runs together are the list of channels. */
  lemma {:induction false} GroupsCover(cs: seq<Channel>, spacing: int)
    requires IsSpacing(spacing) && Numbered(cs)
    ensures AllChannels(Groups(cs, spacing), spacing) == Listed(cs) && AllProper(Groups(cs, spacing), spacing)
  {
    if cs != [] {
      var n := |cs| - 1;
      var gs, c := Groups(cs[..n], spacing), cs[n];
      GroupsCover(cs[..n], spacing);
      GroupsStep(cs[..n], c, spacing);
      assert cs == cs[..n] + [c];
      if gs != [] && Joins(gs[|gs| - 1], c, spacing) {
        ExtendLast(gs, c, spacing);
        assert Groups(cs, spacing) == gs[|gs| - 1 := gs[|gs| - 1].(prev := c)];
      } else {
        AddLast(gs, c, spacing);
      }
    }
  }

  /** No two neighbouring runs could have been one. */
  predicate Maximal(gs: seq<Group>, spacing: int) {
    forall k :: 1 <= k < |gs| ==>
      !(gs[k].start.chan == gs[k - 1].prev.chan + spacing && gs[k].start.maxTxPower == gs[k - 1].start.maxTxPower)
  }

  lemma StillMaximal(gs: seq<Group>, c: Channel, spacing: int)
    requires gs != [] && Maximal(gs, spacing)
    ensures Maximal(gs[|gs| - 1 := gs[|gs| - 1].(prev := c)], spacing)
    ensures !Joins(gs[|gs| - 1], c, spacing) ==> Maximal(gs + [Group(c, c)], spacing)
  {}

  /** Runs are as long as they can be. */
  lemma {:induction false} RunsMaximal(cs: seq<Channel>, spacing: int)
    ensures Maximal(Groups(cs, spacing), spacing)
  {
    if cs != [] {
      var n := |cs| - 1;
      RunsMaximal(cs[..n], spacing);
      var gs := Groups(cs[..n], spacing);
      if gs != [] { StillMaximal(gs, cs[n], spacing); }
    }
  }

  /** Evenly spaced channels with one power. */
  predicate Even(cs: seq<Channel>, spacing: int) {
    forall k :: 1 <= k < |cs| ==> cs[k].chan == cs[k - 1].chan + spacing && cs[k].maxTxPower == cs[0].maxTxPower
  }

  /** Such a band is one run, and a list that makes one run is such a band. */
  lemma {:induction false} OneRunExactly(cs: seq<Channel>, spacing: int)
    requires cs != []
    ensures |Groups(cs, spacing)| == 1 <==> Even(cs, spacing)
    ensures Even(cs, spacing) ==> Groups(cs, spacing) == [Group(cs[0], cs[|cs| - 1])]
  {
    var n := |cs| - 1;
    var rest := cs[..n];
    GroupsStep(rest, cs[n], spacing);
    assert cs == rest + [cs[n]];
    if n > 0 {
      OneRunExactly(rest, spacing);
      assert Even(cs, spacing) <==>
             Even(rest, spacing) && cs[n].chan == rest[n - 1].chan + spacing && cs[n].maxTxPower == rest[0].maxTxPower;
    }
  }

  lemma ExtendLast(gs: seq<Group>, c: Channel, spacing: int)
    requires IsSpacing(spacing) && gs != [] && AllProper(gs, spacing)
    requires Joins(gs[|gs| - 1], c, spacing) && c.chan <= 255
    ensures var gs' := gs[|gs| - 1 := gs[|gs| - 1].(prev := c)];
      AllChannels(gs', spacing) == AllChannels(gs, spacing) + [(c.chan, c.maxTxPower)] && AllProper(gs', spacing)
  {
    var g := gs[|gs| - 1];
    var gs' := gs[|gs| - 1 := g.(prev := c)];
    assert gs'[..|gs| - 1] == gs[..|gs| - 1];
    GroupGrows(g, c, spacing);
  }

  lemma AddLast(gs: seq<Group>, c: Channel, spacing: int)
    requires IsSpacing(spacing) && AllProper(gs, spacing) && 1 <= c.chan <= 255
    ensures var gs' := gs + [Group(c, c)];
      AllChannels(gs', spacing) == AllChannels(gs, spacing) + [(c.chan, c.maxTxPower)] && AllProper(gs', spacing)
  {
    assert (gs + [Group(c, c)])[..|gs|] == gs;
    assert Expand(c.chan, 1, c.maxTxPower, spacing)
        == Expand(c.chan, 0, c.maxTxPower, spacing) + [(c.chan, c.maxTxPower)];
  }

  lemma GroupGrows(g: Group, c: Channel, spacing: int)
    requires IsSpacing(spacing) && Proper(g, spacing) && Joins(g, c, spacing) && c.chan <= 255
    ensures GroupChannels(g.(prev := c), spacing) == GroupChannels(g, spacing) + [(c.chan, c.maxTxPower)]
    ensures Proper(g.(prev := c), spacing)
  {
    assert Size(g.(prev := c), spacing) == Size(g, spacing) + 1;
    assert g.start.chan + Size(g, spacing) * spacing == c.chan;
  }

  /** How many triplets fit into that much room. */
  function Fitting(gs: seq<Group>, room: nat): (k: nat)
    ensures k <= |gs|
  {
    if 3 * |gs| <= room then |gs| else room / 3
  }

  /** The leading triplets are emitted, as many as fit. */
  lemma {:induction false} EmittedTriplets(gs: seq<Group>, spacing: int, room: nat)
    requires IsSpacing(spacing)
    ensures Emitted(gs, spacing, room) == Wire(gs[..Fitting(gs, room)], spacing)
  {
    if gs == [] {
      assert gs[..0] == gs;
    } else {
      var n, k := |gs| - 1, Fitting(gs, room);
      EmittedTriplets(gs[..n], spacing, room);
      if k == |gs| {
        assert gs[..n][..n] == gs[..n] && gs[..k] == gs;
      } else {
        assert gs[..n][..k] == gs[..k];
      }
    }
  }

  function Wire(gs: seq<Group>, spacing: int): (r: seq<byte>)
    requires IsSpacing(spacing)
    ensures |r| == 3 * |gs|
  {
    if gs == [] then [] else Wire(gs[..|gs| - 1], spacing) + Triplet(gs[|gs| - 1], spacing)
  }

  lemma {:induction false} TripletsSnoc(e: seq<byte>, k: nat, t: seq<byte>, tail: seq<byte>)
    requires |e| == 3 * k && |t| == 3 && |tail| < 3
    ensures Triplets(e + t + tail) == Triplets(e) + [Trip(t[0], t[1], t[2])]
  {
    var s := e + t + tail;
    if k == 0 {
      assert s[3..] == tail;
    } else {
      TripletsSnoc(e[3..], k - 1, t, tail);
      assert s[3..] == e[3..] + t + tail;
    }
  }

  lemma TripletExact(g: Group, spacing: int)
    requires IsSpacing(spacing) && Proper(g, spacing)
    ensures var t := Triplet(g, spacing);
      Expand(t[0], t[1], t[2], spacing) == GroupChannels(g, spacing)
  {}

  function Trips(gs: seq<Group>, spacing: int): seq<Trip>
    requires IsSpacing(spacing)
  {
    if gs == [] then []
    else
      var t := Triplet(gs[|gs| - 1], spacing);
      Trips(gs[..|gs| - 1], spacing) + [Trip(t[0], t[1], t[2])]
  }

  lemma {:induction false} WireTriplets(gs: seq<Group>, spacing: int, tail: seq<byte>)
    requires IsSpacing(spacing) && |tail| < 3
    ensures Triplets(Wire(gs, spacing) + tail) == Trips(gs, spacing)
  {
    if gs == [] {
      assert Wire(gs, spacing) + tail == tail;
    } else {
      var n := |gs| - 1;
      var e, t := Wire(gs[..n], spacing), Triplet(gs[n], spacing);
      WireTriplets(gs[..n], spacing, []);
      assert e + [] == e;
      assert Wire(gs, spacing) + tail == e + t + tail;
      TripletsSnoc(e, n, t, tail);
    }
  }

  lemma {:induction false} TripsExpand(gs: seq<Group>, spacing: int)
    requires IsSpacing(spacing) && AllProper(gs, spacing)
    ensures ExpandAll(Trips(gs, spacing), spacing) == AllChannels(gs, spacing)
  {
    if gs != [] {
      var n := |gs| - 1;
      TripsExpand(gs[..n], spacing);
      TripletExact(gs[n], spacing);
      var ts, all := Trips(gs[..n], spacing), Trips(gs, spacing);
      assert all[..|all| - 1] == ts;
    }
  }

  /** Reading and expanding the triplets of proper groups gives their channels back, padding or not. */
  lemma WireExpands(gs: seq<Group>, spacing: int, tail: seq<byte>)
    requires IsSpacing(spacing) && AllProper(gs, spacing) && |tail| < 3
    ensures ExpandAll(Triplets(Wire(gs, spacing) + tail), spacing) == AllChannels(gs, spacing)
  {
    WireTriplets(gs, spacing, tail);
    TripsExpand(gs, spacing);
  }

  // ----- main result -----

  /** What a station makes of a country element. */
  function Decode(elem: seq<byte>, spacing: int): seq<(int, byte)>
    requires |elem| >= 5
  {
    ExpandAll(Triplets(elem[5..]), spacing)
  }

  function Runs(cs: seq<Channel>, spacing: int): seq<Group> {
    Groups(Enabled(cs), spacing)
  }

  predicate Written(cs: seq<Channel>, spacing: int, maxLen: nat) {
    maxLen >= 6 && (var k := Fitting(Runs(cs, spacing), maxLen - 5); k % 2 == 1 || 5 + 3 * k < maxLen)
  }

  function Padding(k: nat): seq<byte> { if k % 2 == 1 then [] else [0] }

  /** Even length, announced in the length byte, around the given body. */
  predicate Shaped(elem: seq<byte>, country: seq<byte>, body: seq<byte>) {
    && |elem| == 5 + |body| && |elem| >= 6 && |elem| % 2 == 0
    && elem[0] == 7 && elem[1] == U8(|elem| - 2) && elem[2..5] == country && elem[5..] == body
  }

  lemma HeadShape(country: seq<byte>, body: seq<byte>)
    requires |country| == 3 && |body| % 2 == 1
    ensures Shaped([WLAN_EID_COUNTRY, U8(|body| + 3)] + country + body, country, body)
  {
    var head := [WLAN_EID_COUNTRY, U8(|body| + 3)] + country;
    assert head[2..5] == country && head[5..] == [];
    Behind(head, body);
    assert [] + body == body;
  }

  lemma OddTriplets(k: nat)
    ensures (3 * k) % 2 == k % 2
  {}

  lemma FramedCases(country: seq<byte>, e: seq<byte>, maxLen: nat)
    requires |country| == 3
    ensures |e| % 2 == 1 ==> Framed(country, e, maxLen) == [WLAN_EID_COUNTRY, U8(|e| + 3)] + country + e
    ensures |e| % 2 == 0 ==>
              var padded := e + [0];
              Framed(country, e, maxLen)
              == if 5 + |e| == maxLen then [] else [WLAN_EID_COUNTRY, U8(|padded| + 3)] + country + padded
  {}

  lemma FramedShape(country: seq<byte>, e: seq<byte>, k: nat, maxLen: nat)
    requires |country| == 3 && |e| == 3 * k && 5 + |e| <= maxLen
    ensures var elem := Framed(country, e, maxLen);
      && |elem| <= maxLen && (elem != [] <==> k % 2 == 1 || 5 + 3 * k < maxLen)
      && (elem != [] ==> Shaped(elem, country, e + Padding(k)))
  {
    OddTriplets(k);
    FramedCases(country, e, maxLen);
    if k % 2 == 1 {
      assert e + [] == e;
      HeadShape(country, e);
    } else {
      HeadShape(country, e + [0]);
    }
  }

  /** The triplets written into that much room. */
  function Body(cs: seq<Channel>, spacing: int, maxLen: nat): seq<byte>
    requires IsSpacing(spacing) && maxLen >= 6
  {
    Wire(Runs(cs, spacing)[..Fitting(Runs(cs, spacing), maxLen - 5)], spacing)
  }

  lemma ElementIsFramed(country: seq<byte>, cs: seq<Channel>, spacing: int, maxLen: nat)
    requires IsSpacing(spacing) && |country| == 3 && maxLen >= 6
    ensures Element(country, cs, spacing, maxLen) == Framed(country, Body(cs, spacing, maxLen), maxLen)
  {
    EmittedTriplets(Runs(cs, spacing), spacing, maxLen - 5);
  }

  lemma ElementShape(country: seq<byte>, cs: seq<Channel>, spacing: int, maxLen: nat)
    requires IsSpacing(spacing) && |country| == 3 && maxLen >= 6
    ensures var elem := Element(country, cs, spacing, maxLen);
      && |elem| <= maxLen && (elem != [] <==> Written(cs, spacing, maxLen))
      && (elem != [] ==>
            Shaped(elem, country, Body(cs, spacing, maxLen) + Padding(Fitting(Runs(cs, spacing), maxLen - 5))))
  {
    ElementIsFramed(country, cs, spacing, maxLen);
    FramedShape(country, Body(cs, spacing, maxLen), Fitting(Runs(cs, spacing), maxLen - 5), maxLen);
  }

  /**
   The element is written unless its padding has no room. It then has even
   length, announces it, and decodes to the channels of the leading runs that
   fit: to all enabled channels, in order and with their power, if and only if
   all runs fit.
   */
  lemma CountryLossless(country: seq<byte>, cs: seq<Channel>, spacing: int, maxLen: nat)
    requires IsSpacing(spacing) && |country| == 3 && Numbered(Enabled(cs))
    ensures var elem := Element(country, cs, spacing, maxLen);
      && (elem != [] <==> Written(cs, spacing, maxLen))
      && (elem != [] ==>
            && 6 <= |elem| <= maxLen && |elem| % 2 == 0
            && elem[0] == WLAN_EID_COUNTRY && elem[1] == U8(|elem| - 2) && elem[2..5] == country
            && Decode(elem, spacing) <= Listed(Enabled(cs))
            && (Decode(elem, spacing) == Listed(Enabled(cs)) <==> 5 + 3 * |Runs(cs, spacing)| <= maxLen))
  {
    if maxLen >= 6 {
      var gs := Runs(cs, spacing);
      var k := Fitting(gs, maxLen - 5);
      ElementShape(country, cs, spacing, maxLen);
      if Written(cs, spacing, maxLen) {
        GroupsCover(Enabled(cs), spacing);
        WireExpands(gs[..k], spacing, Padding(k));
        AllChannelsPrefix(gs, spacing, k);
        assert gs[..|gs|] == gs;
      }
    }
  }

  lemma {:induction false} AllChannelsPrefix(gs: seq<Group>, spacing: int, k: nat)
    requires IsSpacing(spacing) && AllProper(gs, spacing) && k <= |gs|
    ensures AllChannels(gs[..k], spacing) <= AllChannels(gs, spacing)
    ensures k < |gs| ==> |AllChannels(gs[..k], spacing)| < |AllChannels(gs, spacing)|
  {
    if k < |gs| {
      var n := |gs| - 1;
      AllChannelsPrefix(gs[..n], spacing, k);
      assert gs[..n][..k] == gs[..k];
      assert Size(gs[n], spacing) >= 1;
    } else {
      assert gs[..k] == gs;
    }
  }
}
