/**
 `observeDashboardEvents` (tui/src/event-stream.ts): one object whose callbacks
 (a read, a lost connection, two timers, dispose) update its fields in place.
 */
module EventObserver {
  import opened Wrappers
  import opened Text
  import opened SseFraming
  import opened Invalidation

  const FRAME_BYTES := 64 * 1024
  const REMAINDER_BYTES := 128 * 1024

  /** A reset message after its type checks. */
  datatype ResetMessage = ResetMessage(ovenId: Key, repoKey: Key)

  /** JSON parsing of frame data; None stands for text that is refused. */
  datatype Decoder = Decoder(reset: string -> Option<ResetMessage>, event: string -> Option<Event>)

  /** The invalidations one frame causes: none or one. */
  function FrameInputs(decoder: Decoder, frame: Frame): (inputs: seq<Invalidate>)
    ensures Burst(inputs) && |inputs| <= 1
    ensures frame.event == "oven-event" ==>
              forall i :: i in inputs <==> i.Some? && decoder.event(frame.data) == i && Accepted(i.value)
    ensures frame.event == "oven-reset" ==> (inputs != [] <==> decoder.reset(frame.data).Some?)
    ensures frame.event != "oven-event" && frame.event != "oven-reset" ==> inputs == []
  {
    if frame.event == "oven-reset" then
      (match decoder.reset(frame.data)
       case None => []
       case Some(m) =>
         if m.ovenId.Str? || m.repoKey.Str? then [Some(Reset(OrNull(m.ovenId), OrNull(m.repoKey)))] else [None])
    else if frame.event == "oven-event" then
      (match decoder.event(frame.data)
       case None => []
       case Some(e) => if Accepted(e) then [Some(e)] else [])
    else []
  }

  function Inputs(decoder: Decoder, frames: seq<Frame>): (inputs: seq<Invalidate>)
    ensures Burst(inputs)
  {
    if frames == [] then [] else FrameInputs(decoder, frames[0]) + Inputs(decoder, frames[1..])
  }

  lemma {:induction false} InputsAppend(decoder: Decoder, a: seq<Frame>, b: seq<Frame>)
    ensures Inputs(decoder, a + b) == Inputs(decoder, a) + Inputs(decoder, b)
  {
    if a == [] {
      assert a + b == b;
    } else {
      assert (a + b)[1..] == a[1..] + b;
      InputsAppend(decoder, a[1..], b);
    }
  }

  lemma NoInputs(decoder: Decoder)
    ensures Inputs(decoder, []) == []
  {
  }

  lemma InputsSnoc(decoder: Decoder, frames: seq<Frame>, last: Frame)
    ensures Inputs(decoder, frames + [last]) == Inputs(decoder, frames) + FrameInputs(decoder, last)
  {
    InputsAppend(decoder, frames, [last]);
    assert [last][1..] == [];
    assert Inputs(decoder, [last]) == FrameInputs(decoder, last) + [];
  }

  /** One read: what is carried on, and what is invalidated. */
  function Read(decoder: Decoder, carry: string, piece: string): (string, seq<Invalidate>) {
    if Utf8Length(carry + piece) > REMAINDER_BYTES then ("", [None])
    else
      var p := SplitRecords(Normalize(carry + piece));
      (p.remainder, Inputs(decoder, FramesOf(p.records, FRAME_BYTES)))
  }

  function ReadAll(decoder: Decoder, carry: string, pieces: seq<string>): (string, seq<Invalidate>)
    decreases |pieces|
  {
    if pieces == [] then (carry, [])
    else
      var (next, inputs) := Read(decoder, carry, pieces[0]);
      var (last, more) := ReadAll(decoder, next, pieces[1..]);
      (last, inputs + more)
  }

  /** No buffer ever outgrows the limit while the pieces arrive. */
  predicate Fits(carry: string, pieces: seq<string>)
    decreases |pieces|
  {
    pieces == [] ||
    (&& Utf8Length(carry + pieces[0]) <= REMAINDER_BYTES
     && Fits(SplitRecords(Normalize(carry + pieces[0])).remainder, pieces[1..]))
  }

  lemma {:induction false} ReadAllIsFeed(decoder: Decoder, carry: string, pieces: seq<string>)
    requires Fits(carry, pieces)
    ensures var fed := Feed(carry, pieces);
            ReadAll(decoder, carry, pieces) == (fed.remainder, Inputs(decoder, FramesOf(fed.records, FRAME_BYTES)))
    decreases |pieces|
  {
    if pieces != [] {
      var p := SplitRecords(Normalize(carry + pieces[0]));
      var rest := Feed(p.remainder, pieces[1..]);
      ReadAllIsFeed(decoder, p.remainder, pieces[1..]);
      FramesAppend(p.records, rest.records, FRAME_BYTES);
      InputsAppend(decoder, FramesOf(p.records, FRAME_BYTES), FramesOf(rest.records, FRAME_BYTES));
    }
  }

  /**
   The pending list a stream of bytes leaves does not depend on how the
   transport cut it, as long as no buffer outgrew the limit.
   */
  lemma PendingIsIndependentOfChunking(decoder: Decoder, xs: seq<string>, ys: seq<string>)
    requires Concat(xs) == Concat(ys) && !HasCrCrLf(Concat(xs)) && Fits("", xs) && Fits("", ys)
    ensures ReadAll(decoder, "", xs) == ReadAll(decoder, "", ys)
    ensures Fold(ReadAll(decoder, "", xs).1) == Fold(ReadAll(decoder, "", ys).1)
  {
    FramingIsIndependentOfChunking(Concat(xs));
    ReadAllIsFeed(decoder, "", xs);
    ReadAllIsFeed(decoder, "", ys);
  }

  /** What a flush hands over, entry by entry. */
  function FlushAll(pending: seq<Invalidate>): (out: seq<Invalidate>)
    ensures |out| == |pending|
    ensures forall i :: 0 <= i < |pending| ==> out[i] == Flushed(pending[i])
  {
    seq(|pending|, i requires 0 <= i < |pending| => Flushed(pending[i]))
  }

  /** Every event of the burst that is robust is refreshed by something delivered. */
  ghost predicate Speaks(out: seq<Invalidate>, burst: seq<Invalidate>) {
    forall i, active :: 0 <= i < |burst| && Robust(burst[i]) && Admitted(active) && Refreshes(burst[i], active)
      ==> exists d :: d in out && Refreshes(d, active)
  }

  lemma FlushSpeaks(burst: seq<Invalidate>)
    requires Burst(burst)
    ensures Speaks(FlushAll(Fold(burst)), burst)
  {
    forall i, active | 0 <= i < |burst| && Robust(burst[i]) && Admitted(active) && Refreshes(burst[i], active)
      ensures exists d :: d in FlushAll(Fold(burst)) && Refreshes(d, active)
    {
      BurstCovers(burst, i);
      var k :| 0 <= k < |Fold(burst)| && Covers(Fold(burst)[k], burst[i]);
      assert FlushAll(Fold(burst))[k] in FlushAll(Fold(burst));
    }
  }

  class DashboardObserver {
    const decoder: Decoder
    var stopped: bool
    var connecting: bool
    /** The retry timer is armed. */
    var retry: bool
    /** The flush timer is armed. */
    var coalesce: bool
    var pendingInvalidations: seq<Invalidate>
    /** The incomplete record of the open stream. */
    var buffer: string

    /** The invalidations since the last flush, and everything handed to `onInvalidate`. */
    ghost var burst: seq<Invalidate>
    ghost var delivered: seq<Invalidate>

    ghost predicate Valid()
      reads this
    {
      && Burst(burst)
      && pendingInvalidations == Fold(burst)
      && (!stopped ==> (coalesce <==> burst != []))
      && (!stopped ==> (connecting <==> !retry))
      && (stopped ==> burst == [] && !coalesce && !retry)
    }

    constructor (decoder: Decoder)
      ensures Valid() && !stopped && connecting && delivered == [] && burst == [] && buffer == ""
      ensures this.decoder == decoder
    {
      this.decoder := decoder;
      stopped, connecting, retry, coalesce := false, true, false, false;
      pendingInvalidations, buffer := [], "";
      burst, delivered := [], [];
    }

    method Invalidate(event: Invalidate)
      requires Valid() && Input(event)
      modifies this`pendingInvalidations, this`coalesce, this`burst
      ensures Valid()
      ensures burst == if stopped then [] else old(burst) + [event]
    {
      if stopped {
        return;
      }
      var pending := pendingInvalidations;
      if event.None? {
        pending := [None];
      } else if IsReset(event.value) {
        if !exists p :: p in pending && Bars(p, event.value) {
          pending := KeepUncovered(pending, event.value) + [event];
        }
      } else if exists p :: p in pending && Bars(p, event.value) {
      } else if !exists p :: p in pending && Twins(p, event.value) {
        pending := if |pending| >= MAX_PENDING then [None] else pending + [event];
      }
      pendingInvalidations := pending;
      ghost var longer := burst + [event];
      assert longer[..|burst|] == burst;
      burst := longer;
      coalesce := true;
    }

    /** The flush timer: everything robust that arrived since the last flush is spoken for. */
    method CoalesceFires()
      requires Valid() && coalesce
      modifies this`pendingInvalidations, this`coalesce, this`burst, this`delivered
      ensures Valid() && burst == [] && !coalesce
      ensures delivered == old(delivered) + FlushAll(Fold(old(burst)))
      ensures Speaks(delivered[|old(delivered)|..], old(burst))
    {
      coalesce := false;
      FlushSpeaks(burst);
      delivered := delivered + FlushAll(pendingInvalidations);
      pendingInvalidations, burst := [], [];
    }

    /** The loop over the frames of one read. */
    method Dispatch(frames: seq<Frame>)
      requires Valid()
      modifies this`pendingInvalidations, this`coalesce, this`burst
      ensures Valid()
      ensures burst == if stopped then [] else old(burst) + Inputs(decoder, frames)
    {
      hide Inputs, FrameInputs, Fold;
      NoInputs(decoder);
      assert frames[..0] == [];
      for i := 0 to |frames|
        invariant Valid()
        invariant burst == if stopped then [] else old(burst) + Inputs(decoder, frames[..i])
      {
        var inputs := FrameInputs(decoder, frames[i]);
        InputsSnoc(decoder, frames[..i], frames[i]);
        assert frames[..i + 1] == frames[..i] + [frames[i]];
        if inputs != [] {
          assert inputs == [inputs[0]];
          Invalidate(inputs[0]);
        }
      }
      assert frames[..|frames|] == frames;
    }

    /** One read of the open stream. */
    method Receive(piece: string)
      requires Valid() && connecting
      modifies this`pendingInvalidations, this`coalesce, this`burst, this`buffer
      ensures Valid()
      ensures var (carry, inputs) := Read(decoder, old(buffer), piece);
              buffer == carry && burst == if stopped then [] else old(burst) + inputs
    {
      var text := buffer + piece;
      if Utf8Length(text) > REMAINDER_BYTES {
        buffer := "";
        Invalidate(None);
      } else {
        var frames, remainder := ParseSseFrames(text, FRAME_BYTES);
        buffer := remainder;
        Dispatch(frames);
      }
    }

    /** The stream failed, was refused, or closed; the next connection starts with an empty buffer. */
    method ConnectionLost()
      requires Valid() && connecting
      modifies this`connecting, this`retry, this`buffer
      ensures Valid() && !connecting && retry == !stopped && buffer == ""
    {
      if !stopped {
        retry := true;
      }
      connecting, buffer := false, "";
    }

    method RetryFires()
      requires Valid() && retry
      modifies this`connecting, this`retry
      ensures Valid() && connecting && !retry
    {
      retry, connecting := false, true;
    }

    method Dispose()
      requires Valid()
      modifies this
      ensures Valid() && stopped && pendingInvalidations == [] && delivered == old(delivered)
    {
      stopped, retry, coalesce := true, false, false;
      pendingInvalidations, burst := [], [];
    }
  }
}
