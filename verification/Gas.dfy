/**
 GAS comeback fragmentation: responses too long for one frame are parked in a
 ring of dialog slots per station and handed out piece by piece as the station
 asks for them.
 */
module Gas {
  import Bits
  import opened Bytes

  const GAS_DIALOG_MAX: nat := 8

  /** The fragment size limit is always positive but may change between requests. */
  type Limit = n: nat | n >= 1 witness 1400

  datatype Dialog = Dialog(valid: bool, token: byte, resp: seq<byte>, pos: nat, fragId: byte)

  const CLEARED: Dialog := Dialog(false, 0, [], 0, 0)

  /** dialogs is empty while the ring is not allocated; next outlives the ring. */
  datatype Sta = Sta(dialogs: seq<Dialog>, next: nat) {
    predicate Valid() {
      && (|dialogs| == 0 || |dialogs| == GAS_DIALOG_MAX) && next < GAS_DIALOG_MAX
      && forall i :: 0 <= i < |dialogs| ==>
           if dialogs[i].valid then dialogs[i].pos <= |dialogs[i].resp| else dialogs[i] == CLEARED
    }

    predicate Live(i: nat) { i < |dialogs| && dialogs[i].valid }
  }

  const NEW_STA: Sta := Sta([], 0)

  datatype Reply =
    | Direct(data: seq<byte>)
    | ComebackLater
    | Failed
    | Fragment(id: byte, more: bool, data: seq<byte>)
    | NoneOutstanding
    | Silent

  // ----- one station -----

  function Cleared(n: nat): (r: seq<Dialog>)
    ensures |r| == n && forall i :: 0 <= i < n ==> r[i] == CLEARED
  {
    if n == 0 then [] else Cleared(n - 1) + [CLEARED]
  }

  function Slots(s: Sta): seq<Dialog> {
    if s.dialogs == [] then Cleared(GAS_DIALOG_MAX) else s.dialogs
  }

  /** The slot k places after slot i, around the ring. */
  function Nth(i: nat, k: nat): nat {
    (i + k) % GAS_DIALOG_MAX
  }

  /** The first of the n slots from i on, cyclically, that is not in use. */
  function FreeSlot(ds: seq<Dialog>, i: nat, n: nat): Option<nat>
    requires |ds| == GAS_DIALOG_MAX && i < GAS_DIALOG_MAX
    decreases n
  {
    if n == 0 then None
    else if !ds[i].valid then Some(i)
    else FreeSlot(ds, if i + 1 == GAS_DIALOG_MAX then 0 else i + 1, n - 1)
  }

  /** Slot v is the first free one of the n from i on. */
  predicate IsFirstFree(ds: seq<Dialog>, i: nat, n: nat, v: nat)
    requires |ds| == GAS_DIALOG_MAX
  {
    v < GAS_DIALOG_MAX && !ds[v].valid
    && exists k :: 0 <= k < n && v == Nth(i, k) && forall j :: 0 <= j < k ==> ds[Nth(i, j)].valid
  }

  lemma NthNext(i: nat, k: nat)
    ensures Nth(Nth(i, 1), k) == Nth(i, k + 1)
  {}

  lemma FirstFreeNext(ds: seq<Dialog>, i: nat, n: nat, v: nat)
    requires |ds| == GAS_DIALOG_MAX && i < GAS_DIALOG_MAX && ds[i].valid && IsFirstFree(ds, Nth(i, 1), n, v)
    ensures IsFirstFree(ds, i, n + 1, v)
  {
    var k :| 0 <= k < n && v == Nth(Nth(i, 1), k) && forall j :: 0 <= j < k ==> ds[Nth(Nth(i, 1), j)].valid;
    NthNext(i, k);
    forall j | 0 <= j < k + 1 ensures ds[Nth(i, j)].valid {
      if j > 0 { NthNext(i, j - 1); }
    }
    assert v == Nth(i, k + 1);
  }

  /** All n slots from i on are in use. */
  predicate NoneFree(ds: seq<Dialog>, i: nat, n: nat)
    requires |ds| == GAS_DIALOG_MAX
  {
    forall k :: 0 <= k < n ==> ds[Nth(i, k)].valid
  }

  lemma NoneFreeNext(ds: seq<Dialog>, i: nat, n: nat)
    requires |ds| == GAS_DIALOG_MAX && i < GAS_DIALOG_MAX && ds[i].valid && NoneFree(ds, Nth(i, 1), n)
    ensures NoneFree(ds, i, n + 1)
  {
    forall k | 0 <= k < n + 1 ensures ds[Nth(i, k)].valid {
      if k > 0 { NthNext(i, k - 1); }
    }
  }

  lemma {:induction false} FreeSlotIsFirst(ds: seq<Dialog>, i: nat, n: nat)
    requires |ds| == GAS_DIALOG_MAX && i < GAS_DIALOG_MAX
    ensures match FreeSlot(ds, i, n)
      case None => NoneFree(ds, i, n)
      case Some(v) => IsFirstFree(ds, i, n, v)
    decreases n
  {
    if n > 0 && ds[i].valid {
      FreeSlotIsFirst(ds, Nth(i, 1), n - 1);
      match FreeSlot(ds, Nth(i, 1), n - 1) {
        case None => NoneFreeNext(ds, i, n - 1);
        case Some(v) => FirstFreeNext(ds, i, n - 1, v);
      }
    } else if n > 0 {
      assert i == Nth(i, 0);
    }
  }

  /** Creation fails exactly when all eight slots are in use. */
  lemma CreateFailsExactly(ds: seq<Dialog>, next: nat)
    requires |ds| == GAS_DIALOG_MAX && next < GAS_DIALOG_MAX
    ensures FreeSlot(ds, next, GAS_DIALOG_MAX).None? <==> forall i :: 0 <= i < GAS_DIALOG_MAX ==> ds[i].valid
  {
    FreeSlotIsFirst(ds, next, GAS_DIALOG_MAX);
    if FreeSlot(ds, next, GAS_DIALOG_MAX).None? {
      forall i | 0 <= i < GAS_DIALOG_MAX ensures ds[i].valid {
        assert i == Nth(next, (i + GAS_DIALOG_MAX - next) % GAS_DIALOG_MAX);
      }
    }
  }

  /** gas_dialog_create, and storing the response in the slot. */
  function Park(s: Sta, token: byte, resp: seq<byte>): (r: (Sta, Option<nat>))
    requires s.Valid()
    ensures r.0.Valid() && r.0.dialogs != []
    ensures r.1.Some? ==> !s.Live(r.1.value) && r.0.Live(r.1.value)
    ensures forall i :: 0 <= i < |r.0.dialogs| && r.1 != Some(i) ==> r.0.dialogs[i] == Slots(s)[i]
  {
    var ds := Slots(s);
    FreeSlotIsFirst(ds, s.next, GAS_DIALOG_MAX);
    match FreeSlot(ds, s.next, GAS_DIALOG_MAX)
    case None => (s.(dialogs := ds), None)
    case Some(i) =>
      (Sta(ds[i := ds[i].(valid := true, token := token, resp := resp, pos := 0)],
           if i + 1 == GAS_DIALOG_MAX then 0 else i + 1), Some(i))
  }

  /** gas_serv_dialog_find: the first valid slot from i on with the token. */
  function FindFrom(s: Sta, token: byte, i: nat): (r: Option<nat>)
    ensures r.Some? ==> i <= r.value && s.Live(r.value) && s.dialogs[r.value].token == token
    ensures forall k: nat :: i <= k && s.Live(k) && s.dialogs[k].token == token ==> r.Some? && r.value <= k
    decreases |s.dialogs| - i
  {
    if i >= |s.dialogs| then None
    else if s.dialogs[i].valid && s.dialogs[i].token == token then Some(i)
    else FindFrom(s, token, i + 1)
  }

  function Find(s: Sta, token: byte): Option<nat> {
    FindFrom(s, token, 0)
  }

  /** What the next request gets out of a dialog under the given limit, and how many bytes that is. */
  function NextPiece(d: Dialog, limit: Limit): Reply
    requires d.pos <= |d.resp|
  {
    var left := |d.resp| - d.pos;
    var n := if left > limit then limit else left;
    Fragment(d.fragId, left > limit, d.resp[d.pos..d.pos + n])
  }

  function Advance(d: Dialog, limit: Limit): Dialog
    requires d.pos <= |d.resp|
  {
    var left := |d.resp| - d.pos;
    if left > limit then d.(pos := d.pos + limit, fragId := (d.fragId + 1) % 256) else CLEARED
  }

  /** gas_serv_free_dialogs */
  function FreeIfIdle(s: Sta): (r: Sta)
    ensures forall k: nat :: r.Live(k) == s.Live(k) && (r.Live(k) ==> r.dialogs[k] == s.dialogs[k])
  {
    if forall i :: 0 <= i < |s.dialogs| ==> !s.dialogs[i].valid then s.(dialogs := []) else s
  }

  function Serve(s: Sta, i: nat, limit: Limit): (r: Sta)
    requires s.Valid() && s.Live(i)
    ensures r.Valid()
    ensures forall k: nat :: k != i ==> r.Live(k) == s.Live(k) && (r.Live(k) ==> r.dialogs[k] == s.dialogs[k])
    ensures r.Live(i) == NextPiece(s.dialogs[i], limit).more
    ensures r.Live(i) ==> r.dialogs[i] == Advance(s.dialogs[i], limit)
  {
    var d := Advance(s.dialogs[i], limit);
    var t := s.(dialogs := s.dialogs[i := d]);
    if d.valid then t else FreeIfIdle(t)
  }

  /** A parked response is whole, and the next search starts behind its slot; a refused one moves nothing. */
  lemma ParkStores(s: Sta, token: byte, resp: seq<byte>)
    requires s.Valid()
    ensures var (t, slot) := Park(s, token, resp);
      match slot
      case None => t == s
      case Some(i) => t.next == (i + 1) % 8 && t.dialogs[i].token == token && t.dialogs[i].resp == resp && t.dialogs[i].pos == 0
  {
    CreateFailsExactly(Slots(s), s.next);
  }

  /** The ring is given up exactly when its last dialog has been served to the end; the cursor stays. */
  lemma ServeFreesIdle(s: Sta, i: nat, limit: Limit)
    requires s.Valid() && s.Live(i)
    ensures var r := Serve(s, i, limit);
      r.next == s.next
      && (r.dialogs == [] <==> !NextPiece(s.dialogs[i], limit).more && forall k: nat :: k != i ==> !s.Live(k))
  {
    var r := Serve(s, i, limit);
    if k: nat :| k != i && s.Live(k) {
      assert r.Live(k);
    }
    if NextPiece(s.dialogs[i], limit).more {
      assert r.Live(i);
    }
  }

  /** A complete response to a query of the station: at once if it fits, parked otherwise. */
  function OnQuery(s: Sta, token: byte, resp: seq<byte>, limit: Limit, delay: bool): (Sta, Reply)
    requires s.Valid()
  {
    if |resp| > limit || delay then
      var (t, slot) := Park(s, token, resp);
      (t, if slot.None? then Failed else ComebackLater)
    else
      (s, Direct(resp))
  }

  predicate Multicast(a: Addr) { a[0] % 2 == 1 }

  function Nothing(a: Addr): Reply {
    if Multicast(a) then Silent else NoneOutstanding
  }

  /** A comeback request of station a. */
  function OnRequest(s: Sta, a: Addr, token: byte, limit: Limit): (Sta, Reply)
    requires s.Valid()
  {
    match Find(s, token)
    case None => (s, Nothing(a))
    case Some(i) => (Serve(s, i, limit), NextPiece(s.dialogs[i], limit))
  }

  // ----- all stations -----

  type Server = map<Addr, Sta>

  datatype Event =
    | Query(a: Addr, token: byte, resp: seq<byte>, limit: Limit, delay: bool)
    | Request(a: Addr, token: byte, limit: Limit)
    | Forget(a: Addr)

  predicate Valid(srv: Server) {
    forall a :: a in srv ==> srv[a].Valid()
  }

  function StaOf(srv: Server, a: Addr): (s: Sta)
    requires Valid(srv)
    ensures s.Valid()
  {
    if a in srv then srv[a] else NEW_STA
  }

  function Step(srv: Server, e: Event): (r: (Server, Reply))
    requires Valid(srv)
    ensures Valid(r.0)
    ensures forall a :: a != e.a ==> StaOf(r.0, a) == StaOf(srv, a)
  {
    match e
    case Query(a, token, resp, limit, delay) =>
      var (s, reply) := OnQuery(StaOf(srv, a), token, resp, limit, delay);
      (if reply.Direct? then srv else srv[a := s], reply)
    case Request(a, token, limit) =>
      var (s, reply) := OnRequest(StaOf(srv, a), a, token, limit);
      (if a in srv then srv[a := s] else srv, reply)
    case Forget(a) =>
      (srv - {a}, Silent)
  }

  /** A request no dialog of its station answers: nothing outstanding, and no answer at all to a group address. */
  lemma RequestUnanswered(srv: Server, e: Event)
    requires Valid(srv) && e.Request?
    requires forall k: nat :: StaOf(srv, e.a).Live(k) ==> StaOf(srv, e.a).dialogs[k].token != e.token
    ensures Step(srv, e) == (srv, if e.a[0] % 2 == 1 then Silent else NoneOutstanding)
  {
    var s := StaOf(srv, e.a);
    if e.a in srv { assert srv[e.a := s] == srv; }
  }

  predicate AllInUse(s: Sta) {
    forall k: nat :: k < 8 ==> s.Live(k)
  }

  /**
   A response that fits goes out whole and at once and leaves no trace; any
   other is refused exactly when all eight slots of the station are in use.
   */
  lemma QueryAnswered(srv: Server, q: Event)
    requires Valid(srv) && q.Query?
    ensures |q.resp| <= q.limit && !q.delay ==> Step(srv, q) == (srv, Direct(q.resp))
    ensures |q.resp| > q.limit || q.delay ==>
              Step(srv, q).1 == if AllInUse(StaOf(srv, q.a)) then Failed else ComebackLater
  {
    var s := StaOf(srv, q.a);
    CreateFailsExactly(Slots(s), s.next);
    if s.dialogs == [] {
      assert !s.Live(0) && !Slots(s)[0].valid;
    } else {
      assert forall k: nat :: k < GAS_DIALOG_MAX ==> s.Live(k) == Slots(s)[k].valid;
    }
  }

  // ----- what one dialog hands out over a run -----

  datatype Served = Served(limit: Limit, reply: Reply)

  /** The request is answered from slot i of station a. */
  predicate ServedBy(srv: Server, e: Event, a: Addr, i: nat)
    requires Valid(srv)
  {
    e.Request? && e.a == a && Find(StaOf(srv, a), e.token) == Some(i)
  }

  /** Everything handed out of slot i of station a until the slot is given up. */
  function ServedFrom(srv: Server, es: seq<Event>, a: Addr, i: nat): seq<Served>
    requires Valid(srv)
    decreases |es|
  {
    if es == [] || !StaOf(srv, a).Live(i) then []
    else
      var (next, reply) := Step(srv, es[0]);
      (if ServedBy(srv, es[0], a, i) then [Served(es[0].limit, reply)] else []) + ServedFrom(next, es[1..], a, i)
  }

  /** The replies a dialog gives when it is alone in the world and asked with these limits. */
  predicate AsIfAlone(d: Dialog, out: seq<Served>)
    requires d.pos <= |d.resp|
    decreases |out|
  {
    out == [] ||
    (var p := NextPiece(d, out[0].limit);
     out[0].reply == p && if p.more then AsIfAlone(Advance(d, out[0].limit), out[1..]) else out[1..] == [])
  }

  lemma StepOnSlot(srv: Server, e: Event, a: Addr, i: nat)
    requires Valid(srv) && StaOf(srv, a).Live(i)
    ensures var (next, reply) := Step(srv, e);
            var d := StaOf(srv, a).dialogs[i];
      if e == Forget(a) then !StaOf(next, a).Live(i)
      else if ServedBy(srv, e, a, i) then
        reply == NextPiece(d, e.limit) && StaOf(next, a).Live(i) == reply.more
        && (reply.more ==> StaOf(next, a).dialogs[i] == Advance(d, e.limit))
      else StaOf(next, a).Live(i) && StaOf(next, a).dialogs[i] == d
  {}

  /**
   However the queries and requests of all stations and dialogs interleave,
   what comes out of a slot is what its dialog would give on its own.
   */
  lemma {:induction false} SlotsDoNotInterfere(srv: Server, es: seq<Event>, a: Addr, i: nat)
    requires Valid(srv) && StaOf(srv, a).Live(i)
    ensures AsIfAlone(StaOf(srv, a).dialogs[i], ServedFrom(srv, es, a, i))
    decreases |es|
  {
    if es != [] {
      StepOnSlot(srv, es[0], a, i);
      var next := Step(srv, es[0]).0;
      if StaOf(next, a).Live(i) {
        SlotsDoNotInterfere(next, es[1..], a, i);
      }
      var out, rest := ServedFrom(srv, es, a, i), ServedFrom(next, es[1..], a, i);
      assert if ServedBy(srv, es[0], a, i) then out[1..] == rest else out == rest;
    }
  }

  /** The bytes handed out so far. */
  function Data(out: seq<Served>): seq<byte> {
    if out == [] then [] else (if out[0].reply.Fragment? then out[0].reply.data else []) + Data(out[1..])
  }

  /** Fragments in order, ids counting up modulo 256, all but the last announcing more, all but the last full. */
  predicate WellNumbered(out: seq<Served>, first: byte) {
    forall k :: 0 <= k < |out| ==>
      && out[k].reply.Fragment?
      && out[k].reply.id as int == (first + k) % 256
      && |out[k].reply.data| <= out[k].limit
      && (k < |out| - 1 ==> out[k].reply.more && |out[k].reply.data| == out[k].limit)
  }

  lemma NumberedFrom(out: seq<Served>, first: byte)
    requires out != [] && WellNumbered(out[1..], (first + 1) % 256)
    requires var r := out[0].reply;
      r.Fragment? && r.id == first && |r.data| <= out[0].limit && (|out| > 1 ==> r.more && |r.data| == out[0].limit)
    ensures WellNumbered(out, first)
  {
    forall k | 1 <= k < |out| ensures out[k] == out[1..][k - 1] && ((first + 1) % 256 + (k - 1)) % 256 == (first + k) % 256 {}
  }

  lemma {:induction false} AloneNumbers(d: Dialog, out: seq<Served>)
    requires d.pos <= |d.resp| && AsIfAlone(d, out)
    ensures WellNumbered(out, d.fragId)
    decreases |out|
  {
    if out != [] && NextPiece(d, out[0].limit).more {
      AloneNumbers(Advance(d, out[0].limit), out[1..]);
      NumberedFrom(out, d.fragId);
    }
  }

  predicate LastSaysMore(out: seq<Served>)
    requires out != []
  {
    var last := out[|out| - 1].reply;
    last.Fragment? && last.more
  }

  lemma {:induction false} AloneDelivers(d: Dialog, out: seq<Served>)
    requires d.pos <= |d.resp| && AsIfAlone(d, out)
    ensures d.pos + |Data(out)| <= |d.resp| && Data(out) == d.resp[d.pos..d.pos + |Data(out)|]
    ensures out != [] ==> (LastSaysMore(out) <==> d.pos + |Data(out)| < |d.resp|)
    ensures |out| <= 1 || |out| <= |Data(out)|
    decreases |out|
  {
    if out != [] {
      var p, rest := NextPiece(d, out[0].limit), out[1..];
      assert Data(out) == p.data + Data(rest);
      if p.more {
        AloneDelivers(Advance(d, out[0].limit), rest);
      }
    }
  }

  /**
   A query whose response is parked: whatever happens afterwards at any
   station, the fragments handed out of its slot form a prefix of its response,
   and the last of them says there is no more exactly when that is all of it.
   */
  lemma ResponseDelivered(srv: Server, q: Event, es: seq<Event>, i: nat)
    requires Valid(srv) && q.Query? && Step(srv, q).1 == ComebackLater
    requires Park(StaOf(srv, q.a), q.token, q.resp).1 == Some(i)
    ensures !StaOf(srv, q.a).Live(i)
    ensures var out := ServedFrom(Step(srv, q).0, es, q.a, i);
      && WellNumbered(out, 0) && Data(out) <= q.resp
      && (out != [] ==> (!LastSaysMore(out) <==> Data(out) == q.resp))
      && (|out| <= 1 || |out| <= |q.resp|)
  {
    var next := Step(srv, q).0;
    ParkedFresh(srv, q, i);
    var d := Dialog(true, q.token, q.resp, 0, 0);
    SlotsDoNotInterfere(next, es, q.a, i);
    AloneNumbers(d, ServedFrom(next, es, q.a, i));
    AloneDelivers(d, ServedFrom(next, es, q.a, i));
  }

  lemma ParkedFresh(srv: Server, q: Event, i: nat)
    requires Valid(srv) && q.Query? && Step(srv, q).1 == ComebackLater
    requires Park(StaOf(srv, q.a), q.token, q.resp).1 == Some(i)
    ensures !StaOf(srv, q.a).Live(i)
    ensures var s := StaOf(Step(srv, q).0, q.a);
            s.Live(i) && s.dialogs[i] == Dialog(true, q.token, q.resp, 0, 0)
  {
    assert Slots(StaOf(srv, q.a))[i] == CLEARED;
  }

  // ----- the octet on the air -----

  /** Fragment id and "more" share one octet: the id is OR-ed with 0x80. */
  function WireOctet(id: byte, more: bool): byte {
    if more && id < 128 then id + 128 else id
  }

  /** A station reads the top bit as "more fragments". */
  predicate MoreReadRight(out: seq<Served>) {
    forall k :: 0 <= k < |out| && out[k].reply.Fragment? ==>
      (WireOctet(out[k].reply.id, out[k].reply.more) >= 128 <==> out[k].reply.more)
  }

  /** The limits under which the pieces were requested. */
  function Limits(out: seq<Served>): seq<Limit> {
    if out == [] then [] else [out[0].limit] + Limits(out[1..])
  }

  /** How many pieces requests with these limits get out of left bytes. */
  function Pieces(left: nat, limits: seq<Limit>): nat
    decreases |limits|
  {
    if limits == [] then 0
    else if left > limits[0] then 1 + Pieces(left - limits[0], limits[1..])
    else 1
  }

  /** The requests are enough for all of left bytes. */
  predicate Completes(left: nat, limits: seq<Limit>)
    decreases |limits|
  {
    limits != [] && (left <= limits[0] || Completes(left - limits[0], limits[1..]))
  }

  /** The id has eight bits but only seven fit beside "more": the last piece is number 128 .. 255 modulo 256. */
  predicate EndsInHighId(left: nat, limits: seq<Limit>) {
    Completes(left, limits) && (Pieces(left, limits) - 1) % 256 >= 128
  }

  /** out is what requests with these limits get out of left bytes. */
  predicate Accounted(left: nat, out: seq<Served>, limits: seq<Limit>) {
    |out| == Pieces(left, limits) && (Completes(left, limits) <==> out != [] && !LastSaysMore(out))
  }

  lemma AccountedFirst(left: nat, p: Served, rest: seq<Served>, limits: seq<Limit>)
    requires p.reply.Fragment? && p.reply.more == (left > p.limit)
    requires if p.reply.more then Accounted(left - p.limit, rest, limits) else rest == []
    ensures Accounted(left, [p] + rest, [p.limit] + limits)
  {
    var out, all := [p] + rest, [p.limit] + limits;
    assert all[0] == p.limit && all[1..] == limits;
    assert rest != [] ==> out[|out| - 1] == rest[|rest| - 1];
  }

  lemma {:induction false} AlonePieces(d: Dialog, out: seq<Served>)
    requires d.pos <= |d.resp| && AsIfAlone(d, out)
    ensures Accounted(|d.resp| - d.pos, out, Limits(out))
    decreases |out|
  {
    if out != [] {
      if NextPiece(d, out[0].limit).more { AlonePieces(Advance(d, out[0].limit), out[1..]); }
      assert out == [out[0]] + out[1..];
      AccountedFirst(|d.resp| - d.pos, out[0], out[1..], Limits(out[1..]));
    }
  }

  lemma ReadByCount(d: Dialog, out: seq<Served>, limits: seq<Limit>)
    requires d.pos == 0 && d.fragId == 0 && AsIfAlone(d, out) && Accounted(|d.resp|, out, limits)
    ensures MoreReadRight(out) <==> !EndsInHighId(|d.resp|, limits)
  {
    AloneNumbers(d, out);
    if out != [] {
      var last := out[|out| - 1].reply;
      assert last.id as int == (|out| - 1) % 256;
    }
  }

  /**
   For a parked response: the station reads "more" right on every piece exactly
   when the limits of the requests served do not end the response in a high id.
   */
  lemma MoreReadRightExactly(srv: Server, q: Event, es: seq<Event>, i: nat)
    requires Valid(srv) && q.Query? && Step(srv, q).1 == ComebackLater
    requires Park(StaOf(srv, q.a), q.token, q.resp).1 == Some(i)
    ensures var out := ServedFrom(Step(srv, q).0, es, q.a, i);
      MoreReadRight(out) <==> !EndsInHighId(|q.resp|, Limits(out))
  {
    var next := Step(srv, q).0;
    ParkedFresh(srv, q, i);
    var d := Dialog(true, q.token, q.resp, 0, 0);
    var out := ServedFrom(next, es, q.a, i);
    SlotsDoNotInterfere(next, es, q.a, i);
    AlonePieces(d, out);
    ReadByCount(d, out, Limits(out));
  }

  // ----- seen from the station -----

  /** The replies to the requests of station a for one token. */
  function AnswersTo(srv: Server, es: seq<Event>, a: Addr, token: byte): seq<Reply>
    requires Valid(srv)
    decreases |es|
  {
    if es == [] then []
    else
      var (next, reply) := Step(srv, es[0]);
      (if es[0].Request? && es[0].a == a && es[0].token == token then [reply] else [])
      + AnswersTo(next, es[1..], a, token)
  }

  ghost predicate NoDialog(s: Sta, token: byte) {
    forall k: nat :: s.Live(k) ==> s.dialogs[k].token != token
  }

  ghost predicate OnlyDialog(s: Sta, token: byte, i: nat) {
    s.Live(i) && forall k: nat :: s.Live(k) ==> (s.dialogs[k].token == token <==> k == i)
  }

  predicate TokenReused(es: seq<Event>, a: Addr, token: byte) {
    exists k :: 0 <= k < |es| && es[k].Query? && es[k].a == a && es[k].token == token
  }

  predicate AllNothing(out: seq<Reply>, a: Addr) {
    forall k :: 0 <= k < |out| ==> out[k] == Nothing(a)
  }

  lemma NoDialogStep(srv: Server, e: Event, a: Addr, token: byte)
    requires Valid(srv) && !(e.Query? && e.a == a && e.token == token) && NoDialog(StaOf(srv, a), token)
    ensures NoDialog(StaOf(Step(srv, e).0, a), token)
  {}

  lemma ServedByToken(srv: Server, e: Event, a: Addr, token: byte, i: nat)
    requires Valid(srv) && OnlyDialog(StaOf(srv, a), token, i)
    ensures ServedBy(srv, e, a, i) == (e.Request? && e.a == a && e.token == token)
  {}

  lemma OnlyDialogStep(srv: Server, e: Event, a: Addr, token: byte, i: nat)
    requires Valid(srv) && !(e.Query? && e.a == a && e.token == token) && OnlyDialog(StaOf(srv, a), token, i)
    ensures var t := StaOf(Step(srv, e).0, a);
      if t.Live(i) then OnlyDialog(t, token, i) else NoDialog(t, token)
  {}

  lemma {:induction false} NothingLeft(srv: Server, es: seq<Event>, a: Addr, token: byte)
    requires Valid(srv) && NoDialog(StaOf(srv, a), token) && !TokenReused(es, a, token)
    ensures AllNothing(AnswersTo(srv, es, a, token), a)
    decreases |es|
  {
    if es != [] {
      NotReused(es, a, token);
      NoDialogStep(srv, es[0], a, token);
      NothingLeft(Step(srv, es[0]).0, es[1..], a, token);
    }
  }

  lemma NotReused(es: seq<Event>, a: Addr, token: byte)
    requires es != [] && !TokenReused(es, a, token)
    ensures !TokenReused(es[1..], a, token) && !(es[0].Query? && es[0].a == a && es[0].token == token)
  {
    assert forall k :: 0 <= k < |es| - 1 ==> es[1..][k] == es[k + 1];
  }

  /**
   A station that does not reuse a token while it is in use gets, in reply to
   its requests with that token, exactly what its dialog hands out, and after
   the last fragment only the answer that nothing is outstanding.
   */
  lemma {:induction false} TokenAnswers(srv: Server, es: seq<Event>, a: Addr, token: byte, i: nat)
    requires Valid(srv) && OnlyDialog(StaOf(srv, a), token, i) && !TokenReused(es, a, token)
    ensures var out, answers := ServedFrom(srv, es, a, i), AnswersTo(srv, es, a, token);
      && |out| <= |answers| && (forall k :: 0 <= k < |out| ==> answers[k] == out[k].reply)
      && AllNothing(answers[|out|..], a)
    decreases |es|
  {
    if es != [] {
      NotReused(es, a, token);
      ServedByToken(srv, es[0], a, token, i);
      OnlyDialogStep(srv, es[0], a, token, i);
      var next := Step(srv, es[0]).0;
      if StaOf(next, a).Live(i) {
        TokenAnswers(next, es[1..], a, token, i);
      } else {
        NothingLeft(next, es[1..], a, token);
      }
      var out, rest := ServedFrom(srv, es, a, i), ServedFrom(next, es[1..], a, i);
      assert if ServedBy(srv, es[0], a, i) then out[1..] == rest else out == rest;
      assert AnswersTo(srv, es, a, token)[|out|..] == AnswersTo(next, es[1..], a, token)[|rest|..];
    }
  }

  // ----- the octet on the air, from the requests alone -----

  /** The limits of the requests of station a for one token, up to where the station is forgotten. */
  function RequestLimits(es: seq<Event>, a: Addr, token: byte): seq<Limit> {
    if es == [] || es[0] == Forget(a) then []
    else
      (if es[0].Request? && es[0].a == a && es[0].token == token then [es[0].limit] else [])
      + RequestLimits(es[1..], a, token)
  }

  lemma ServedHead(srv: Server, es: seq<Event>, a: Addr, i: nat)
    requires Valid(srv) && es != [] && StaOf(srv, a).Live(i) && es[0] != Forget(a)
    ensures var d, next := StaOf(srv, a).dialogs[i], Step(srv, es[0]).0;
            var out, rest := ServedFrom(srv, es, a, i), ServedFrom(next, es[1..], a, i);
      if ServedBy(srv, es[0], a, i) then
        var p := Served(es[0].limit, NextPiece(d, es[0].limit));
        out == [p] + rest && (!p.reply.more ==> rest == [])
      else out == rest
  {
    StepOnSlot(srv, es[0], a, i);
  }

  lemma LimitsHead(es: seq<Event>, a: Addr, token: byte)
    requires es != [] && es[0] != Forget(a)
    ensures var later := RequestLimits(es[1..], a, token);
      RequestLimits(es, a, token)
      == if es[0].Request? && es[0].a == a && es[0].token == token then [es[0].limit] + later else later
  {}

  /** One served request accounts for one more piece. */
  lemma ServedCounts(d: Dialog, limit: Limit, out: seq<Served>, rest: seq<Served>, limits: seq<Limit>, later: seq<Limit>)
    requires d.pos <= |d.resp| && limits == [limit] + later
    requires out == [Served(limit, NextPiece(d, limit))] + rest
    requires if NextPiece(d, limit).more then Accounted(|d.resp| - d.pos - limit, rest, later) else rest == []
    ensures Accounted(|d.resp| - d.pos, out, limits)
  {
    AccountedFirst(|d.resp| - d.pos, Served(limit, NextPiece(d, limit)), rest, later);
  }

  /** One event, seen from the dialog: served, and then further on or gone, or left alone. */
  lemma DialogStep(srv: Server, es: seq<Event>, a: Addr, token: byte, i: nat, d: Dialog)
    requires Valid(srv) && OnlyDialog(StaOf(srv, a), token, i) && !TokenReused(es, a, token)
    requires StaOf(srv, a).dialogs[i] == d && es != [] && es[0] != Forget(a)
    ensures var next := Step(srv, es[0]).0;
      && !TokenReused(es[1..], a, token)
      && (ServedBy(srv, es[0], a, i) <==> es[0].Request? && es[0].a == a && es[0].token == token)
      && (ServedBy(srv, es[0], a, i) && NextPiece(d, es[0].limit).more ==>
            OnlyDialog(StaOf(next, a), token, i) && StaOf(next, a).dialogs[i] == Advance(d, es[0].limit))
      && (!ServedBy(srv, es[0], a, i) ==> OnlyDialog(StaOf(next, a), token, i) && StaOf(next, a).dialogs[i] == d)
  {
    NotReused(es, a, token);
    ServedByToken(srv, es[0], a, token, i);
    OnlyDialogStep(srv, es[0], a, token, i);
    StepOnSlot(srv, es[0], a, i);
  }

  lemma NothingServed(srv: Server, es: seq<Event>, a: Addr, token: byte, i: nat, left: nat)
    requires Valid(srv) && (es == [] || es[0] == Forget(a))
    ensures Accounted(left, ServedFrom(srv, es, a, i), RequestLimits(es, a, token))
  {
    if es != [] && StaOf(srv, a).Live(i) {
      assert !StaOf(Step(srv, es[0]).0, a).Live(i);
    }
  }

  /** What is served depends on nothing but those limits. */
  lemma {:induction false} RequestsDecide(srv: Server, es: seq<Event>, a: Addr, token: byte, i: nat, d: Dialog)
    requires Valid(srv) && OnlyDialog(StaOf(srv, a), token, i) && !TokenReused(es, a, token)
    requires StaOf(srv, a).dialogs[i] == d
    ensures Accounted(|d.resp| - d.pos, ServedFrom(srv, es, a, i), RequestLimits(es, a, token))
    decreases |es|
  {
    if es != [] && es[0] != Forget(a) {
      DialogStep(srv, es, a, token, i, d);
      ServedHead(srv, es, a, i);
      LimitsHead(es, a, token);
      var next := Step(srv, es[0]).0;
      var out, rest := ServedFrom(srv, es, a, i), ServedFrom(next, es[1..], a, i);
      var limits, later := RequestLimits(es, a, token), RequestLimits(es[1..], a, token);
      if ServedBy(srv, es[0], a, i) {
        if NextPiece(d, es[0].limit).more {
          RequestsDecide(next, es[1..], a, token, i, Advance(d, es[0].limit));
        }
        ServedCounts(d, es[0].limit, out, rest, limits, later);
      } else {
        RequestsDecide(next, es[1..], a, token, i, d);
        assert out == rest && limits == later;
      }
    } else {
      NothingServed(srv, es, a, token, i, |d.resp| - d.pos);
    }
  }

  /** A query whose token no live dialog of the station has, parked in slot i. */
  predicate FreshQuery(srv: Server, q: Event, i: nat)
    requires Valid(srv)
  {
    && q.Query? && Step(srv, q).1 == ComebackLater && Find(StaOf(srv, q.a), q.token) == None
    && Park(StaOf(srv, q.a), q.token, q.resp).1 == Some(i)
  }

  /**
   A station that does not reuse its token reads "more" right on every piece of
   its response exactly when the response length and the limits of its requests
   do not make the response end in a high id.
   */
  lemma StationReadsRightExactly(srv: Server, q: Event, es: seq<Event>, i: nat)
    requires Valid(srv) && FreshQuery(srv, q, i) && !TokenReused(es, q.a, q.token)
    ensures MoreReadRight(ServedFrom(Step(srv, q).0, es, q.a, i))
       <==> !EndsInHighId(|q.resp|, RequestLimits(es, q.a, q.token))
  {
    var next, d := Step(srv, q).0, Dialog(true, q.token, q.resp, 0, 0);
    OnlyTheNewOne(srv, q, i);
    SlotsDoNotInterfere(next, es, q.a, i);
    RequestsDecide(next, es, q.a, q.token, i, d);
    ReadByCount(d, ServedFrom(next, es, q.a, i), RequestLimits(es, q.a, q.token));
  }

  lemma OnlyTheNewOne(srv: Server, q: Event, i: nat)
    requires Valid(srv) && FreshQuery(srv, q, i)
    ensures var s := StaOf(Step(srv, q).0, q.a);
      OnlyDialog(s, q.token, i) && s.dialogs[i] == Dialog(true, q.token, q.resp, 0, 0)
  {
    ParkedFresh(srv, q, i);
    var s, t := StaOf(srv, q.a), StaOf(Step(srv, q).0, q.a);
    forall k: nat | t.Live(k) && k != i ensures t.dialogs[k].token != q.token {
      assert t.dialogs[k] == Slots(s)[k];
      assert s.Live(k);
    }
  }

  /** Pieces of a response under one limit. */
  function FullPieces(left: nat, limit: Limit): nat {
    if left == 0 then 1 else (left - 1) / limit + 1
  }

  predicate AllAre(limits: seq<Limit>, limit: Limit) {
    forall k :: 0 <= k < |limits| ==> limits[k] == limit
  }

  lemma {:induction false} ConstantLimit(left: nat, limits: seq<Limit>, limit: Limit)
    requires AllAre(limits, limit)
    ensures var n := FullPieces(left, limit);
      && (Completes(left, limits) <==> |limits| >= n)
      && Pieces(left, limits) == (if |limits| >= n then n else |limits|)
    decreases |limits|
  {
    if left > limit {
      OnePieceLess(left, limit);
      if limits != [] { ConstantLimit(left - limit, limits[1..], limit); }
    } else if left > 0 {
      Bits.RemainderUnique(left - 1, limit, 0, left - 1);
    }
  }

  lemma OnePieceLess(left: nat, limit: Limit)
    requires left > limit
    ensures FullPieces(left, limit) == FullPieces(left - limit, limit) + 1 && FullPieces(left, limit) >= 2
  {
    var q, r := (left - limit - 1) / limit, (left - limit - 1) % limit;
    assert (q + 1) * limit == q * limit + limit;
    Bits.RemainderUnique(left - 1, limit, q + 1, r);
  }

  /** That many requests under one limit fetch all of a response whose last piece is number 128 .. 255 modulo 256. */
  predicate HighIdUnder(left: nat, limit: Limit, requests: nat) {
    var n := FullPieces(left, limit);
    requests >= n && (n - 1) % 256 >= 128
  }

  lemma HighIdUnderOneLimit(left: nat, limits: seq<Limit>, limit: Limit)
    requires AllAre(limits, limit)
    ensures EndsInHighId(left, limits) <==> HighIdUnder(left, limit, |limits|)
  {
    ConstantLimit(left, limits, limit);
  }

  /** With one limit throughout, a fully requested response is misread exactly by its length. */
  lemma OneLimitExactly(srv: Server, q: Event, es: seq<Event>, i: nat, limit: Limit)
    requires Valid(srv) && FreshQuery(srv, q, i) && !TokenReused(es, q.a, q.token)
    requires AllAre(RequestLimits(es, q.a, q.token), limit)
    ensures MoreReadRight(ServedFrom(Step(srv, q).0, es, q.a, i))
       <==> !HighIdUnder(|q.resp|, limit, |RequestLimits(es, q.a, q.token)|)
  {
    StationReadsRightExactly(srv, q, es, i);
    HighIdUnderOneLimit(|q.resp|, RequestLimits(es, q.a, q.token), limit);
  }

  const STATION: Addr := [2, 0, 0, 0, 0, 1]

  function Requests(n: nat): (es: seq<Event>)
    ensures !TokenReused(es, STATION, 0)
  {
    if n == 0 then [] else [Request(STATION, 0, 1)] + Requests(n - 1)
  }

  lemma {:induction false} LimitsOfRequests(n: nat)
    ensures var limits := RequestLimits(Requests(n), STATION, 0);
      |limits| == n && forall k :: 0 <= k < n ==> limits[k] == 1
  {
    if n > 0 {
      LimitsOfRequests(n - 1);
      assert Requests(n)[1..] == Requests(n - 1);
    }
  }

  /** n bytes to be fetched one by one by a station without dialogs. */
  function ByteByByte(resp: seq<byte>): Event { Query(STATION, 0, resp, 1, false) }

  const IDLE: Server := map[]

  lemma FirstSlot(resp: seq<byte>)
    requires |resp| > 1
    ensures FreshQuery(IDLE, ByteByByte(resp), 0)
  {
    assert Slots(NEW_STA) == Cleared(GAS_DIALOG_MAX);
    assert FreeSlot(Cleared(GAS_DIALOG_MAX), 0, GAS_DIALOG_MAX) == Some(0);
  }

  lemma OneByOne(n: nat)
    requires n > 0
    ensures FullPieces(n, 1) == n
  {
    Bits.RemainderUnique(n - 1, 1, n - 1, 0);
  }

  /** Parked on a server without dialogs and fetched byte by byte, the response is read right to its end. */
  predicate FetchedRight(resp: seq<byte>) {
    MoreReadRight(ServedFrom(Step(IDLE, ByteByByte(resp)).0, Requests(|resp|), STATION, 0))
  }

  /** Fetched one by one, a response is read right exactly when it does not end in a high id. */
  lemma ByteByByteExactly(resp: seq<byte>)
    requires |resp| > 1
    ensures FreshQuery(IDLE, ByteByByte(resp), 0)
    ensures FetchedRight(resp) <==> (|resp| - 1) % 256 < 128
  {
    FirstSlot(resp);
    LimitsOfRequests(|resp|);
    OneByOne(|resp|);
    OneLimitExactly(IDLE, ByteByByte(resp), Requests(|resp|), 0, 1);
  }

  /** 129 bytes requested one by one: the last piece appears not to be the last. */
  lemma LastPieceMisread(resp: seq<byte>)
    requires |resp| == 129
    ensures !FetchedRight(resp)
  {
    ByteByByteExactly(resp);
  }
}
