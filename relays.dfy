/** The relay bank. Each relay is an active-low GPIO output: driving the pin high ("on")
    leaves the relay released, driving it low ("off") closes it. A trigger request closes
    the requested relays for one second and then releases every relay again. */
module Relays {
  import opened Base

  /** The GPIO pins of the relay bank, in channel order. */
  const RelayPins: seq<int> := [26, 20, 21]

  /** The `channels` value of a trigger request: a list of channel numbers, or a JSON value
      that `in` cannot search (null, a number, a string). */
  datatype Channels = Listed(items: seq<int>) | NotSearchable

  /** One line read from standard input. `None` is a missing key. */
  datatype Request = Request(methodName: Option<string>, channels: Option<Channels>) | Malformed

  /** The JSON line written back. `Failed` is an error reply carrying the text of a Python
      exception. */
  datatype Reply = TriggerComplete | UnknownMethod(message: string) | Failed

  /** The pin levels while the relays are held: channel `idx` is low (closed) exactly when
      it is requested. */
  function Activation(count: nat, channels: seq<int>): (high: seq<bool>)
    ensures |high| == count
    ensures forall idx | 0 <= idx < count :: !high[idx] <==> idx in channels
  {
    seq(count, idx => idx !in channels)
  }

  /** Every pin high: every relay released. */
  function Released(count: nat): (high: seq<bool>)
    ensures |high| == count
    ensures forall idx | 0 <= idx < count :: high[idx]
  {
    seq(count, _ => true)
  }

  /** Only which channels are requested matters: not their order, not repetitions. */
  lemma ActivationBySet(count: nat, a: seq<int>, b: seq<int>)
    requires forall idx | 0 <= idx < count :: idx in a <==> idx in b
    ensures Activation(count, a) == Activation(count, b)
  {
  }

  /** Channel numbers that name no relay close nothing. */
  lemma ActivationIgnoresUnknown(count: nat, channels: seq<int>, extra: seq<int>)
    requires forall k | 0 <= k < |extra| :: extra[k] < 0 || extra[k] >= count
    ensures Activation(count, channels + extra) == Activation(count, channels)
  {
    var a := Activation(count, channels + extra);
    var b := Activation(count, channels);
    forall idx | 0 <= idx < count
      ensures a[idx] == b[idx]
    {
      assert idx in channels + extra <==> idx in channels;
    }
  }

  /** With no channels requested, no relay closes. */
  lemma ActivationNone(count: nat)
    ensures Activation(count, []) == Released(count)
  {
  }

  /** The error message for a method other than "trigger"; Python formats a missing
      method as `None`. */
  function UnknownMethodMessage(methodName: Option<string>): string
  {
    "Unknown method " + (if methodName.None? then "None" else methodName.value)
  }

  /** The reply to one request on a bank of `count` relays: an unparsable line fails, a
      method other than "trigger" is rejected by name, and a trigger completes unless its
      `channels` cannot be searched and there is a relay to search them for. */
  function ReplyFor(count: nat, request: Request): (reply: Reply)
    ensures reply.UnknownMethod? <==> request.Request? && request.methodName != Some("trigger")
    ensures reply == TriggerComplete ==> request.Request? && request.methodName == Some("trigger")
  {
    if request.Malformed? then Failed
    else if request.methodName != Some("trigger") then
      UnknownMethod(UnknownMethodMessage(request.methodName))
    else
      match GetOr(request.channels, Listed([]))
      case Listed(_) => TriggerComplete
      case NotSearchable => if count == 0 then TriggerComplete else Failed
  }

  class RelayController {
    const pins: seq<int>
    /** The level of each relay's pin; true is high (released). */
    var high: seq<bool>
    /** The levels held during each one-second wait, one entry per trigger. */
    var holds: seq<seq<bool>>

    /** Between requests every relay is released. */
    predicate Valid()
      reads this
    {
      high == Released(|pins|)
    }

    /** One output per pin, in order, each starting high. */
    constructor (relayPins: seq<int>)
      ensures pins == relayPins && Valid() && holds == []
    {
      pins := relayPins;
      var levels: seq<bool> := [];
      for k := 0 to |relayPins|
        invariant levels == Released(k)
      {
        levels := levels + [true];
      }
      high := levels;
      holds := [];
    }

    /** `trigger_relays`: set every relay (low when requested, high otherwise), hold for
        one second, release every relay. A `channels` value that cannot be searched raises
        at the first relay, before any pin changes. */
    method TriggerRelays(channels: Channels) returns (reply: Reply)
      requires Valid()
      modifies this
      ensures Valid()
      ensures channels.Listed? || |pins| == 0 ==>
        reply == TriggerComplete &&
        holds == old(holds) + [Activation(|pins|, if channels.Listed? then channels.items else [])]
      ensures channels.NotSearchable? && |pins| > 0 ==>
        reply == Failed && holds == old(holds)
    {
      for idx := 0 to |pins|
        invariant |high| == |pins| && holds == old(holds)
        invariant channels.NotSearchable? ==> idx == 0
        invariant forall j | 0 <= j < idx :: channels.Listed? && high[j] == (j !in channels.items)
        invariant forall j | idx <= j < |pins| :: high[j]
      {
        if channels.NotSearchable? {
          return Failed;
        }
        if idx in channels.items {
          high := high[idx := false];
        } else {
          high := high[idx := true];
        }
      }
      assert high == Activation(|pins|, if channels.Listed? then channels.items else []);
      holds := holds + [high];
      ghost var held := holds;
      for idx := 0 to |pins|
        invariant |high| == |pins| && holds == held
        invariant forall j | 0 <= j < idx :: high[j]
      {
        high := high[idx := true];
      }
      reply := TriggerComplete;
    }

    /** One request from standard input: "trigger" with its channels (none when the key
        is missing), anything else an error, an unparsable line an error. */
    method Handle(request: Request) returns (reply: Reply)
      requires Valid()
      modifies this
      ensures Valid()
      ensures request.Malformed? ==> reply == Failed && holds == old(holds)
      ensures request.Request? && request.methodName != Some("trigger") ==>
        reply == UnknownMethod(UnknownMethodMessage(request.methodName)) && holds == old(holds)
      ensures request.Request? && request.methodName == Some("trigger") ==>
        var channels := GetOr(request.channels, Listed([]));
        (channels.Listed? || |pins| == 0 ==>
          reply == TriggerComplete &&
          holds == old(holds) + [Activation(|pins|, if channels.Listed? then channels.items else [])]) &&
        (channels.NotSearchable? && |pins| > 0 ==> reply == Failed && holds == old(holds))
      ensures reply == ReplyFor(|pins|, request)
    {
      if request.Malformed? {
        return Failed;
      }
      if request.methodName == Some("trigger") {
        var channels := GetOr(request.channels, Listed([]));
        reply := TriggerRelays(channels);
      } else {
        reply := UnknownMethod(UnknownMethodMessage(request.methodName));
      }
    }
  }

  /** The holds a sequence of requests produces on a bank of `count` relays. */
  function Holds(count: nat, requests: seq<Request>): seq<seq<bool>>
    decreases |requests|
  {
    if requests == [] then []
    else
      var r := requests[|requests| - 1];
      Holds(count, requests[..|requests| - 1]) +
        (if r.Request? && r.methodName == Some("trigger") then
           match GetOr(r.channels, Listed([]))
           case Listed(items) => [Activation(count, items)]
           case NotSearchable => if count == 0 then [Released(0)] else []
         else [])
  }

  /** `main`'s loop over the lines of standard input: one reply per request; afterwards
      every relay is released again, and the holds are exactly the ones the trigger
      requests call for. */
  method Serve(controller: RelayController, requests: seq<Request>) returns (replies: seq<Reply>)
    requires controller.Valid()
    modifies controller
    ensures controller.Valid()
    ensures |replies| == |requests|
    ensures forall k | 0 <= k < |requests| :: replies[k] == ReplyFor(|controller.pins|, requests[k])
    ensures controller.holds == old(controller.holds) + Holds(|controller.pins|, requests)
  {
    replies := [];
    for k := 0 to |requests|
      invariant controller.Valid()
      invariant |replies| == k
      invariant forall j | 0 <= j < k :: replies[j] == ReplyFor(|controller.pins|, requests[j])
      invariant controller.holds == old(controller.holds) + Holds(|controller.pins|, requests[..k])
    {
      var reply := controller.Handle(requests[k]);
      assert requests[..k + 1][..k] == requests[..k];
      replies := replies + [reply];
    }
    assert requests[..|requests|] == requests;
  }

  /** Every hold has one level per relay. */
  lemma {:induction false} HoldsShape(count: nat, requests: seq<Request>)
    ensures forall k | 0 <= k < |Holds(count, requests)| :: |Holds(count, requests)[k]| == count
    decreases |requests|
  {
    if requests != [] {
      HoldsShape(count, requests[..|requests| - 1]);
    }
  }

  /** The number of requests that `ReplyFor` answers with `TriggerComplete`. */
  function Completions(count: nat, requests: seq<Request>): nat
    decreases |requests|
  {
    if requests == [] then 0
    else
      Completions(count, requests[..|requests| - 1]) +
        (if ReplyFor(count, requests[|requests| - 1]) == TriggerComplete then 1 else 0)
  }

  /** Each "trigger complete" reply stands for exactly one hold, and no other reply
      holds anything. */
  lemma {:induction false} HoldPerCompletion(count: nat, requests: seq<Request>)
    ensures |Holds(count, requests)| == Completions(count, requests)
    decreases |requests|
  {
    if requests != [] {
      HoldPerCompletion(count, requests[..|requests| - 1]);
    }
  }
}
