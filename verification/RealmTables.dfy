/** The shared realm tables as the engine updates them in place. */
module RealmTables {
  import opened Words
  import opened Codec
  import opened Options
  import opened SessionSpec
  import opened Realms

  /** One incoming event for each packet handed on. */
  function Arrivals(packets: seq<Packet>): (r: seq<Event>)
    ensures |r| == |packets| && forall k :: 0 <= k < |r| ==> r[k] == Incoming(packets[k].body)
  {
    seq(|packets|, k requires 0 <= k < |packets| => Incoming(packets[k].body))
  }

  class RealmTables {
    var channels: map<u32, nat>
    var waiting: map<u32, nat>
    var queues: seq<seq<bytes>>
    var released: set<nat>
    var dropped: set<nat>
    var onvifRealm: Option<u32>

    ghost function Value(): Table
      reads this
    {
      Table(channels, waiting, queues, released, dropped, onvifRealm)
    }

    constructor ()
      ensures Value() == EMPTY_TABLE
    {
      channels, waiting, queues, released, dropped, onvifRealm := map[], map[], [], {}, {}, None;
    }

    /** A client was accepted: give its realm a queue and wait for the camera's CONN. */
    method RegisterClient(realm: u32) returns (queue: nat)
      modifies this
      ensures Value() == After(old(Value()), Register(realm))
      ensures queue == |old(queues)|
    {
      queue := |queues|;
      queues := queues + [[]];
      channels := channels[realm := queue];
      waiting := waiting[realm := queue];
    }

    method BindFailure(realm: u32)
      modifies this`channels, this`waiting
      ensures Value() == After(old(Value()), BindFailed(realm))
    {
      channels := channels - {realm};
      waiting := waiting - {realm};
    }

    method DispatchStatus(realm: u32, status: bytes)
      modifies this
      ensures Value() == Dispatch(old(Value()), Status(realm, status))
    {
      if status == CONN {
        if realm in waiting {
          released := released + {waiting[realm]};
          waiting := waiting - {realm};
        }
      } else if status == DISC {
        channels := channels - {realm};
        waiting := waiting - {realm};
        if onvifRealm == Some(realm) {
          onvifRealm := None;
        }
      }
    }

    method DispatchPayload(realm: u32, data: bytes)
      requires Numbered(Value())
      modifies this`queues
      ensures Value() == Dispatch(old(Value()), Payload(realm, data))
    {
      if realm in channels {
        var queue := channels[realm];
        if queue !in dropped {
          queues := queues[queue := queues[queue] + [data]];
        }
      }
    }

    /** The reader's loop over what one datagram released. */
    method DispatchAll(packets: seq<Packet>)
      requires Numbered(Value())
      modifies this
      ensures Numbered(Value())
      ensures Value() == AfterAll(old(Value()), Arrivals(packets))
    {
      ghost var before := Value();
      for i := 0 to |packets|
        invariant Numbered(Value())
        invariant Value() == AfterAll(before, Arrivals(packets[..i]))
      {
        DispatchOne(packets[i].body);
        AfterLast(before, packets, i);
      }
      assert packets[..|packets|] == packets;
    }

    method DispatchOne(body: Body)
      requires Numbered(Value())
      modifies this
      ensures Numbered(Value())
      ensures Value() == After(old(Value()), Incoming(body))
    {
      match body
      case Status(realm, status) => DispatchStatus(realm, status);
      case Payload(realm, data) => DispatchPayload(realm, data);
      case _ =>
    }
  }

  lemma AfterLast(t: Table, packets: seq<Packet>, i: nat)
    requires i < |packets|
    ensures AfterAll(t, Arrivals(packets[..i + 1]))
         == After(AfterAll(t, Arrivals(packets[..i])), Incoming(packets[i].body))
  {
    var last := [Incoming(packets[i].body)];
    assert Arrivals(packets[..i + 1]) == Arrivals(packets[..i]) + last;
    AfterAllSplit(t, Arrivals(packets[..i]), last);
    assert last[1..] == [];
  }
}
