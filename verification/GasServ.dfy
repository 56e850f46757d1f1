/**
 The GAS server as it runs: station entries whose ring of dialogs is an array
 of slots updated in place, allocated on first use and freed when idle.
 */
module GasServ {
  import opened Bytes
  import opened Gas

  class StaEntry {
    var dialogs: array?<Dialog>
    var next: nat

    function Abs(): Sta
      reads this, dialogs
    {
      Sta(if dialogs == null then [] else dialogs[..], next)
    }

    ghost predicate Valid()
      reads this, dialogs
    {
      (dialogs != null ==> dialogs.Length == GAS_DIALOG_MAX) && Abs().Valid()
    }

    constructor ()
      ensures Valid() && Abs() == NEW_STA && dialogs == null
    {
      dialogs, next := null, 0;
    }

    method DialogCreate(token: byte) returns (slot: Option<nat>)
      requires Valid()
      modifies this, dialogs
      ensures dialogs != null && dialogs.Length == GAS_DIALOG_MAX && (dialogs == old(dialogs) || fresh(dialogs))
      ensures slot == FreeSlot(old(Slots(Abs())), old(next), GAS_DIALOG_MAX)
      ensures slot.None? ==> Abs() == old(Abs().(dialogs := Slots(Abs())))
      ensures slot.Some? ==> var i := slot.value;
                i < GAS_DIALOG_MAX
                && dialogs[..] == old(Slots(Abs()))[i := old(Slots(Abs()))[i].(valid := true, token := token)]
                && next == if i + 1 == GAS_DIALOG_MAX then 0 else i + 1
    {
      ghost var ds := Slots(Abs());
      if dialogs == null {
        dialogs := new Dialog[GAS_DIALOG_MAX](_ => CLEARED);
      }
      assert dialogs[..] == ds;
      var i: nat, j: nat := next, 0;
      while j < GAS_DIALOG_MAX
        invariant j <= GAS_DIALOG_MAX && i <= GAS_DIALOG_MAX
        invariant next == old(next) && dialogs != null && dialogs[..] == ds
        invariant dialogs == old(dialogs) || fresh(dialogs)
        invariant FreeSlot(ds, next, GAS_DIALOG_MAX)
               == FreeSlot(ds, if i == GAS_DIALOG_MAX then 0 else i, GAS_DIALOG_MAX - j)
      {
        if i == GAS_DIALOG_MAX {
          i := 0;
        }
        if !dialogs[i].valid {
          dialogs[i] := dialogs[i].(valid := true, token := token);
          slot := Some(i);
          next := if i + 1 == GAS_DIALOG_MAX then 0 else i + 1;
          return;
        }
        i := i + 1;
        j := j + 1;
      }
      slot := None;
    }

    method DialogFind(token: byte) returns (slot: Option<nat>)
      requires Valid()
      ensures slot == Find(Abs(), token)
    {
      var i := 0;
      while dialogs != null && i < GAS_DIALOG_MAX
        invariant 0 <= i <= GAS_DIALOG_MAX
        invariant dialogs == null ==> i == 0
        invariant Find(Abs(), token) == FindFrom(Abs(), token, i)
        decreases GAS_DIALOG_MAX - i
      {
        if dialogs[i].token == token && dialogs[i].valid {
          return Some(i);
        }
        i := i + 1;
      }
      return None;
    }

    method FreeDialogs()
      requires Valid()
      modifies this
      ensures Valid() && Abs() == FreeIfIdle(old(Abs()))
      ensures dialogs == old(dialogs) || dialogs == null
    {
      if dialogs == null {
        return;
      }
      for i := 0 to GAS_DIALOG_MAX
        invariant forall k :: 0 <= k < i ==> !dialogs[k].valid
      {
        if dialogs[i].valid {
          assert dialogs[..][i].valid;
          return;
        }
      }
      assert forall k :: 0 <= k < GAS_DIALOG_MAX ==> !dialogs[..][k].valid;
      dialogs := null;
    }

    /** Park a response that does not go out at once. */
    method ParkResponse(token: byte, resp: seq<byte>) returns (slot: Option<nat>)
      requires Valid()
      modifies this, dialogs
      ensures Valid() && (Abs(), slot) == Park(old(Abs()), token, resp)
      ensures dialogs == old(dialogs) || fresh(dialogs)
    {
      slot := DialogCreate(token);
      if slot.Some? {
        ghost var ds := old(Slots(Abs()));
        dialogs[slot.value] := dialogs[slot.value].(resp := resp, pos := 0);
        assert dialogs[..] == ds[slot.value := ds[slot.value].(valid := true, token := token, resp := resp, pos := 0)];
      }
    }

    /** Answer a comeback request from a dialog. */
    method SendFragment(i: nat, limit: Limit) returns (reply: Reply)
      requires Valid() && Abs().Live(i)
      modifies this, dialogs
      ensures Valid() && Abs() == Serve(old(Abs()), i, limit)
      ensures reply == NextPiece(old(Abs().dialogs[i]), limit)
      ensures dialogs == old(dialogs) || dialogs == null
    {
      var d := dialogs[i];
      var more, fragLen := false, |d.resp| - d.pos;
      if fragLen > limit {
        fragLen := limit;
        more := true;
      }
      reply := Fragment(d.fragId, more, d.resp[d.pos..d.pos + fragLen]);
      dialogs[i] := d.(fragId := (d.fragId + 1) % 256, pos := d.pos + fragLen);
      if !more {
        dialogs[i] := CLEARED;
        assert dialogs[..] == old(dialogs[..])[i := CLEARED];
        FreeDialogs();
      } else {
        assert dialogs[..] == old(dialogs[..])[i := Advance(d, limit)];
      }
    }

    /** The end of gas_serv_req_local_processing: send the response, or park it. */
    method RxQuery(token: byte, resp: seq<byte>, limit: Limit, delay: bool) returns (reply: Reply)
      requires Valid()
      modifies this, dialogs
      ensures Valid() && (Abs(), reply) == OnQuery(old(Abs()), token, resp, limit, delay)
      ensures dialogs == old(dialogs) || fresh(dialogs)
    {
      if |resp| > limit || delay {
        var slot := ParkResponse(token, resp);
        reply := if slot.None? then Failed else ComebackLater;
      } else {
        reply := Direct(resp);
      }
    }

    /** gas_serv_rx_gas_comeback_req, from the station with address a. */
    method RxComebackReq(a: Addr, token: byte, limit: Limit) returns (reply: Reply)
      requires Valid()
      modifies this, dialogs
      ensures Valid() && (Abs(), reply) == OnRequest(old(Abs()), a, token, limit)
      ensures dialogs == old(dialogs) || dialogs == null
    {
      var slot := DialogFind(token);
      if slot.None? {
        reply := if a[0] % 2 == 1 then Silent else NoneOutstanding;
      } else {
        reply := SendFragment(slot.value, limit);
      }
    }
  }
}
