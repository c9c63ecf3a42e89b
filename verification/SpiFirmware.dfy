/** The firmware over SPI: the main loop polls the transport unless a reset has been demanded, and the
    callback hands the request to the handler. Interrupts may come at any moment. */
module SpiFirmware {
  import opened Bits
  import opened HidProtocol
  import opened SpiLink
  import HidUart

  /** The requests as inputs of the handler. */
  function Inputs(requests: seq<Frame>): (r: seq<Input>)
    ensures |r| == |requests|
  {
    seq(|requests|, k requires 0 <= k < |requests| => Request(requests[k]))
  }

  /** Every request got one response, owed by the history before it; none came after a reset demand. */
  ghost predicate Answered(requests: seq<Frame>, responses: seq<Frame>, statuses: seq<Status>) {
    && |statuses| == |requests|
    && responses == HidUart.Replies(Inputs(requests), statuses)
    && (requests != [] ==> !ResetDemanded(Inputs(requests[..|requests| - 1])))
  }

  lemma AnsweredSnoc(requests: seq<Frame>, responses: seq<Frame>, statuses: seq<Status>, f: Frame, s: Status)
    requires Answered(requests, responses, statuses) && !ResetDemanded(Inputs(requests))
    ensures Inputs(requests + [f]) == Inputs(requests) + [Request(f)]
    ensures var all := Inputs(requests + [f]);
      Answered(requests + [f], responses + [Response(LastCode(all), ResetDemanded(all), s)], statuses + [s])
  {
    assert Inputs(requests + [f]) == Inputs(requests) + [Request(f)];
    hide ResetDemanded, LastCode, Response, HidUart.Replies;
    HidUart.RepliesSnoc(Inputs(requests), statuses, Request(f), s);
    assert (requests + [f])[..|requests|] == requests;
  }

  class Firmware {
    const port: Port
    const handler: Handler
    ghost var statuses: seq<Status>

    ghost predicate Valid()
      reads this, port, port.inBuf, port.outBuf, handler
    {
      && port.Valid() && port.main.Polling? && handler.Valid()
      && handler.seen == Inputs(port.hist.requests)
      && Answered(port.hist.requests, port.hist.responses, statuses)
    }

    constructor ()
      ensures Valid() && fresh(port) && fresh(port.inBuf) && fresh(port.outBuf) && fresh(handler)
      ensures port.hist.requests == []
    {
      port := new Port();
      handler := new Handler();
      statuses := [];
    }

    /** One turn of the main loop. Once a reset is demanded only the interrupt handler goes on;
        before that a turn serves a request exactly when its first access finds no response on its way
        and its second a complete request. A request that is already waiting is the one served. */
    method Turn(irq: nat -> seq<Irq>, s: Status) returns (served: bool, ghost first: Link, ghost second: Link)
      requires Valid()
      modifies this, port`main, port`inIndex, port`outIndex, port`receiving, port`hist, port`acts,
        port.inBuf, port.outBuf, handler
      ensures Valid()
      ensures old(handler.resetRequired) ==>
        !served && port.acts == old(port.acts) + AllIrqActs(irq(0))
      ensures !old(handler.resetRequired) ==>
        && IsRun(first, old(port.acts) + AllIrqActs(irq(0)))
        && (first.outBuf[0] == 0 ==>
              IsRun(second, old(port.acts) + Accesses(irq, 0, 1, ANY) + AllIrqActs(irq(1))))
        && (served <==> first.outBuf[0] == 0 && second.inIndex == 8)
        && port.acts == old(port.acts)
             + TaskActs(irq, if served then port.outBuf[..] else ANY, first.outBuf[0] == 0, served)
        && (RequestPending(old(port.View())) ==>
              served && port.hist.requests == old(port.hist.requests) + [old(port.inBuf[..])])
      ensures served ==>
        && |port.hist.requests| == |old(port.hist.requests)| + 1 && statuses == old(statuses) + [s]
        && port.hist.responses == old(port.hist.responses) + [port.outBuf[..]]
      ensures !served ==>
        port.hist.requests == old(port.hist.requests) && port.hist.responses == old(port.hist.responses)
    {
      hide Answered, IsRun, Inputs, Accesses, AllIrqActs, RequestPending, AllEffects, LastCode, ResetDemanded;
      served, first, second := false, port.View(), port.View();
      if handler.resetRequired {
        port.Interrupts(irq(0));
      } else {
        served, first, second := port.Poll(irq);
        if served {
          Serve(irq, s);
        }
      }
    }

    method Serve(irq: nat -> seq<Irq>, s: Status)
      requires port.Valid() && port.main == Reading([]) && handler.Valid() && !handler.resetRequired
      requires handler.seen == Inputs(port.hist.requests)
      requires Answered(port.hist.requests, port.hist.responses, statuses)
      modifies this, port`main, port`inIndex, port`outIndex, port`receiving, port`hist, port`acts,
        port.inBuf, port.outBuf, handler
      ensures Valid() && statuses == old(statuses) + [s]
      ensures port.hist.requests == old(port.hist.requests) + [old(port.inBuf[..])]
      ensures port.hist.responses == old(port.hist.responses) + [port.outBuf[..]]
      ensures port.acts == old(port.acts) + Accesses(irq, 2, 8, ANY) + [Go(port.outBuf[..])] + Accesses(irq, 10, 8, ANY)
    {
      hide Answered, Inputs, Response, LastCode, ResetDemanded, AllEffects, IsRun, Accesses;
      var request := port.Read(irq);
      AnsweredSnoc(port.hist.requests, port.hist.responses, statuses, request, s);
      var resp := handler.DataHandler(request, s);
      port.Compose(request, resp);
      statuses := statuses + [s];
      port.Write(irq, resp);
    }

    /** At most once, over SPI as well: at any moment of any run, the effects performed are those of the
        requests handed over, one after the other, and each of these is what the host sent in its
        segment; the whole frames the host can decode are the responses these requests call for. */
    lemma EffectsAreOfRequests()
      requires Valid()
      ensures var h := port.hist;
        && handler.performed == AllEffects(Inputs(h.requests))
        && (forall k :: 0 <= k < |h.requests| ==> k < |h.segments| && h.requests[k] == Captured(h.segments[k]))
        && |h.segments| - 1 <= |h.responses|
        && Decode(h.sent).frames == HidUart.Replies(Inputs(h.requests), statuses)[..|h.segments| - 1]
        && Flatten(h.segments) == ReceivedBy(port.acts)
    {
      port.MemoryIsCorrect();
    }
  }
}
