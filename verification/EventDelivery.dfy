/**
 From the server's printer to the rendered views: which views are refreshed by
 the frames written to the stream, through framing, decoding, the burst
 coalescer and the flush (tui/src/event-stream.ts, src/events/oven-event-feed.mjs).
 Everything is said of the frames and the fields of the views.
 */
module EventDelivery {
  import opened Wrappers
  import opened Text
  import opened SseFraming
  import opened SseDelivery
  import opened Invalidation
  import opened EventObserver

  /** The events the dashboard reacts to, by kind and phase. */
  predicate Wanted(e: Event) {
    || (e.phase == Some("complete")
        && (e.kind == Some("data-published") || e.kind == Some("binding-changed")
            || e.kind == Some("definition-changed")))
    || (e.ovenId == Str("checklist") && e.kind == Some("item-burned") && e.phase == Some("completed"))
    || (e.ovenId == Str("checklist") && e.kind == Some("lifecycle-changed") && e.phase == Some("complete"))
  }

  /** Whether an event the dashboard reacts to concerns the view. */
  predicate Concerns(e: Event, view: Active) {
    if e.kind == Some("definition-changed") then
      && e.ovenId == Str(view.ovenId)
      && (if view.definitionRepoKey.None? then !e.repoKey.Str? else e.repoKey == Str(view.definitionRepoKey.value))
    else
      && (e.ovenId == Absent || e.ovenId == Str(view.ovenId))
      && (view.repoKey == None || e.repoKey == Absent || e.repoKey == Str(view.repoKey.value))
      && (|| e.kind == Some("data-published") || e.kind == Some("binding-changed")
          || view.subjectId == None || e.subjectId == Absent || e.subjectId == Str(view.subjectId.value))
  }

  /** Whether a reset message names the view's oven and repository, where it names any. */
  predicate Resets(m: ResetMessage, view: Active) {
    && (m.ovenId.Str? ==> m.ovenId.text == view.ovenId)
    && (m.repoKey.Str? && view.repoKey.Some? ==> m.repoKey.text == view.repoKey.value)
  }

  /** Whether a frame on the stream is about the view. */
  predicate About(decoder: Decoder, f: Frame, view: Active) {
    || (f.event == "oven-event" && decoder.event(f.data).Some?
        && Wanted(decoder.event(f.data).value) && Concerns(decoder.event(f.data).value, view))
    || (f.event == "oven-reset" && decoder.reset(f.data).Some? && Resets(decoder.reset(f.data).value, view))
  }

  /** Events no other event of the stream can hide. */
  predicate Unhideable(e: Event) {
    || e.kind == Some("definition-changed") || e.ovenId == Null
    || (e.repoKey != Absent
        && (e.kind == Some("data-published") || e.kind == Some("binding-changed") || e.subjectId == Null))
  }

  /** What the next flush delivers after these reads. */
  function Delivered(decoder: Decoder, pieces: seq<string>): seq<Invalidate> {
    FlushAll(Fold(ReadAll(decoder, "", pieces).1))
  }

  ghost predicate Refreshed(decoder: Decoder, pieces: seq<string>, view: Active) {
    exists d :: d in Delivered(decoder, pieces) && Refreshes(d, Some(view))
  }

  /** The server wrote these frames, and they arrive in these pieces without overflowing the buffer. */
  ghost predicate Arrive(fs: seq<Frame>, pieces: seq<string>) {
    && (forall i :: 0 <= i < |fs| ==> Writable(fs[i], 65536))
    && Concat(pieces) == WriteAll(fs) && Fits("", pieces)
  }

  // ----- the burst the frames cause

  lemma WrittenFramesAreRead(decoder: Decoder, fs: seq<Frame>, pieces: seq<string>)
    requires Arrive(fs, pieces)
    ensures ReadAll(decoder, "", pieces) == ("", Inputs(decoder, fs))
  {
    EveryFrameIsDelivered(fs, pieces, FRAME_BYTES);
    ReadAllIsFeed(decoder, "", pieces);
  }

  /** A frame is about the views that the invalidation it causes refreshes. */
  lemma FrameInputsAreAbout(decoder: Decoder, f: Frame, view: Active)
    ensures About(decoder, f, view) <==> exists i :: i in FrameInputs(decoder, f) && Refreshes(i, Some(view))
  {
    var inputs := FrameInputs(decoder, f);
    if inputs != [] {
      assert inputs == [inputs[0]] && inputs[0] in inputs;
    }
  }

  lemma {:induction false} InputsComeFromFrames(decoder: Decoder, fs: seq<Frame>, i: Invalidate)
    ensures i in Inputs(decoder, fs) <==> exists k :: 0 <= k < |fs| && i in FrameInputs(decoder, fs[k])
    ensures |Inputs(decoder, fs)| <= |fs|
  {
    hide FrameInputs;
    if fs != [] {
      InputsComeFromFrames(decoder, fs[1..], i);
      if k :| 0 <= k < |fs| && i in FrameInputs(decoder, fs[k]) {
        assert k > 0 ==> fs[1..][k - 1] == fs[k];
      }
      assert forall k :: 0 <= k < |fs| - 1 ==> fs[1..][k] == fs[k + 1];
    }
  }

  lemma InputsAreAbout(decoder: Decoder, fs: seq<Frame>, view: Active)
    ensures (exists k :: 0 <= k < |fs| && About(decoder, fs[k], view))
       <==> exists i :: i in Inputs(decoder, fs) && Refreshes(i, Some(view))
  {
    hide FrameInputs, Inputs, About, Refreshes;
    forall k | 0 <= k < |fs| && About(decoder, fs[k], view)
      ensures exists i :: i in Inputs(decoder, fs) && Refreshes(i, Some(view))
    {
      FrameInputsAreAbout(decoder, fs[k], view);
      var i :| i in FrameInputs(decoder, fs[k]) && Refreshes(i, Some(view));
      InputsComeFromFrames(decoder, fs, i);
    }
    forall i | i in Inputs(decoder, fs) && Refreshes(i, Some(view))
      ensures exists k :: 0 <= k < |fs| && About(decoder, fs[k], view)
    {
      InputsComeFromFrames(decoder, fs, i);
      var k :| 0 <= k < |fs| && i in FrameInputs(decoder, fs[k]);
      FrameInputsAreAbout(decoder, fs[k], view);
    }
  }

  // ----- nothing is refreshed without a cause

  /** Without an overflow everything pending was in the burst. */
  lemma {:induction false} ShortBurstIsKept(burst: seq<Invalidate>)
    requires |burst| <= 32
    ensures |Fold(burst)| <= |burst| && forall p :: p in Fold(burst) ==> p in burst
    decreases |burst|
  {
    if burst != [] {
      var before, last := burst[..|burst| - 1], burst[|burst| - 1];
      ShortBurstIsKept(before);
      assert burst == before + [last];
      if last.Some? {
        KeptEntries(Fold(before), last.value);
        KeptIsNoLonger(Fold(before), last.value);
      }
    }
  }

  lemma FlushKeepsMeaning(entry: Invalidate, view: Active)
    requires Input(entry)
    ensures Refreshes(Flushed(entry), Some(view)) ==> Refreshes(entry, Some(view))
  {
  }

  lemma DeliveredHasACause(burst: seq<Invalidate>, d: Invalidate, view: Active)
    requires Burst(burst) && |burst| <= 32 && d in FlushAll(Fold(burst)) && Refreshes(d, Some(view))
    ensures exists i :: i in burst && Refreshes(i, Some(view))
  {
    hide Refreshes;
    var k :| 0 <= k < |Fold(burst)| && FlushAll(Fold(burst))[k] == d;
    var entry := Fold(burst)[k];
    ShortBurstIsKept(burst);
    assert entry in burst;
    FlushKeepsMeaning(entry, view);
  }

  /**
   A view is refreshed only if one of the frames is about it: frames with other
   names, refused data and events of other ovens, repositories or subjects cause
   nothing. More than 32 frames may overflow into a refresh of everything.
   */
  lemma NothingWithoutACause(decoder: Decoder, fs: seq<Frame>, pieces: seq<string>, view: Active)
    requires Arrive(fs, pieces) && |fs| <= 32 && Refreshed(decoder, pieces, view)
    ensures exists k :: 0 <= k < |fs| && About(decoder, fs[k], view)
  {
    hide Arrive, About, Refreshes, Inputs, Fold;
    WrittenFramesAreRead(decoder, fs, pieces);
    var d :| d in Delivered(decoder, pieces) && Refreshes(d, Some(view));
    InputsComeFromFrames(decoder, fs, None);
    DeliveredHasACause(Inputs(decoder, fs), d, view);
    InputsAreAbout(decoder, fs, view);
  }

  // ----- everything that counts is refreshed

  /** What the reset of a frame puts into the burst, and the views it is about. */
  lemma ResetIsInBurst(decoder: Decoder, fs: seq<Frame>, k: nat)
    requires k < |fs| && fs[k].event == "oven-reset" && decoder.reset(fs[k].data).Some?
    ensures exists i :: 0 <= i < |Inputs(decoder, fs)| && Robust(Inputs(decoder, fs)[i])
              && forall view :: Resets(decoder.reset(fs[k].data).value, view) ==>
                   Refreshes(Inputs(decoder, fs)[i], Some(view))
  {
    hide Inputs;
    var inputs := FrameInputs(decoder, fs[k]);
    assert inputs == [inputs[0]] && inputs[0] in inputs;
    InputsComeFromFrames(decoder, fs, inputs[0]);
    var i :| 0 <= i < |Inputs(decoder, fs)| && Inputs(decoder, fs)[i] == inputs[0];
  }

  lemma EventIsInBurst(decoder: Decoder, fs: seq<Frame>, k: nat, e: Event) returns (i: nat)
    requires k < |fs| && fs[k].event == "oven-event" && decoder.event(fs[k].data) == Some(e) && Wanted(e)
    ensures i < |Inputs(decoder, fs)| && Inputs(decoder, fs)[i] == Some(e)
  {
    hide Inputs;
    assert FrameInputs(decoder, fs[k]) == [Some(e)];
    assert Some(e) in [Some(e)];
    InputsComeFromFrames(decoder, fs, Some(e));
    i :| 0 <= i < |Inputs(decoder, fs)| && Inputs(decoder, fs)[i] == Some(e);
  }

  /** An event the server writes reaches the burst, whatever else is on the stream. */
  lemma EventArrives(decoder: Decoder, fs: seq<Frame>, pieces: seq<string>, k: nat, e: Event)
    requires Arrive(fs, pieces) && k < |fs|
    requires fs[k].event == "oven-event" && decoder.event(fs[k].data) == Some(e) && Wanted(e)
    ensures Some(e) in ReadAll(decoder, "", pieces).1
    ensures Unhideable(e) ==> forall view :: Admitted(Some(view)) && Concerns(e, view) ==>
              Refreshed(decoder, pieces, view)
  {
    hide Arrive, Inputs, Fold;
    WrittenFramesAreRead(decoder, fs, pieces);
    var i := EventIsInBurst(decoder, fs, k, e);
    FlushSpeaks(Inputs(decoder, fs));
    if Unhideable(e) {
      forall view | Admitted(Some(view)) && Concerns(e, view) ensures Refreshed(decoder, pieces, view) {
        ConcernedIsRefreshed(e, view);
        assert Robust(Inputs(decoder, fs)[i]);
      }
    }
  }

  lemma ConcernedIsRefreshed(e: Event, view: Active)
    requires Wanted(e)
    ensures Concerns(e, view) <==> Refreshes(Some(e), Some(view))
  {
  }

  /**
   A reset the server writes refreshes every view of the oven and the repository
   it names, and every view at all when it names neither.
   */
  lemma ResetArrives(decoder: Decoder, fs: seq<Frame>, pieces: seq<string>, k: nat, m: ResetMessage)
    requires Arrive(fs, pieces) && k < |fs|
    requires fs[k].event == "oven-reset" && decoder.reset(fs[k].data) == Some(m)
    ensures forall view :: Admitted(Some(view)) && Resets(m, view) ==> Refreshed(decoder, pieces, view)
  {
    hide Arrive, Inputs, Fold, Refreshes, Robust, Resets, FrameInputs;
    WrittenFramesAreRead(decoder, fs, pieces);
    ResetIsInBurst(decoder, fs, k);
    var i :| 0 <= i < |Inputs(decoder, fs)| && Robust(Inputs(decoder, fs)[i])
      && forall view :: Resets(m, view) ==> Refreshes(Inputs(decoder, fs)[i], Some(view));
    FlushSpeaks(Inputs(decoder, fs));
  }

  /**
   End to end and exact: as long as no buffer overflows and no event can be
   hidden by another, a view is refreshed if and only if one of the frames the
   server wrote is about it.
   */
  lemma RefreshedExactly(decoder: Decoder, fs: seq<Frame>, pieces: seq<string>, view: Active)
    requires Arrive(fs, pieces) && |fs| <= 32 && Admitted(Some(view))
    requires forall k :: 0 <= k < |fs| && fs[k].event == "oven-event" ==>
               decoder.event(fs[k].data).Some? && Wanted(decoder.event(fs[k].data).value)
               ==> Unhideable(decoder.event(fs[k].data).value)
    ensures Refreshed(decoder, pieces, view) <==> exists k :: 0 <= k < |fs| && About(decoder, fs[k], view)
  {
    hide Arrive, Refreshed, Wanted, Concerns, Resets, Unhideable;
    if Refreshed(decoder, pieces, view) {
      NothingWithoutACause(decoder, fs, pieces, view);
    }
    forall k | 0 <= k < |fs| && About(decoder, fs[k], view) ensures Refreshed(decoder, pieces, view) {
      if fs[k].event == "oven-event" {
        EventArrives(decoder, fs, pieces, k, decoder.event(fs[k].data).value);
      } else {
        ResetArrives(decoder, fs, pieces, k, decoder.reset(fs[k].data).value);
      }
    }
  }

  /** A single frame needs no such condition: it is delivered as it stands. */
  lemma OneFrameRefreshesExactly(decoder: Decoder, f: Frame, pieces: seq<string>, view: Active)
    requires Arrive([f], pieces) && Admitted(Some(view))
    ensures Refreshed(decoder, pieces, view) <==> About(decoder, f, view)
  {
    hide Arrive, Inputs, Fold, Refreshes, FrameInputs, About;
    var fs := [f];
    WrittenFramesAreRead(decoder, fs, pieces);
    if Refreshed(decoder, pieces, view) {
      NothingWithoutACause(decoder, fs, pieces, view);
    }
    if About(decoder, f, view) {
      assert About(decoder, fs[0], view);
      InputsAreAbout(decoder, fs, view);
      var i :| i in Inputs(decoder, fs) && Refreshes(i, Some(view));
      InputsComeFromFrames(decoder, fs, i);
      assert Inputs(decoder, fs) == [i];
      BurstCovers(Inputs(decoder, fs), 0);
      var k :| 0 <= k < |Fold([i])| && Covers(Fold([i])[k], i);
      assert FlushAll(Fold([i]))[k] in Delivered(decoder, pieces);
    }
  }

  // ----- when the buffer overflows, and when it cannot

  lemma {:induction false} ReadsAreABurst(decoder: Decoder, carry: string, pieces: seq<string>)
    ensures Burst(ReadAll(decoder, carry, pieces).1)
    ensures !Fits(carry, pieces) ==> None in ReadAll(decoder, carry, pieces).1
    decreases |pieces|
  {
    hide Inputs, SplitRecords, Normalize;
    if pieces != [] {
      var (next, inputs) := Read(decoder, carry, pieces[0]);
      ReadsAreABurst(decoder, next, pieces[1..]);
    }
  }

  /** Whatever text is read: once a buffer overflows, every view is refreshed. */
  lemma OverflowRefreshesEverything(decoder: Decoder, pieces: seq<string>, view: Active)
    requires !Fits("", pieces) && Admitted(Some(view))
    ensures Refreshed(decoder, pieces, view)
  {
    hide ReadAll, Fold, Fits;
    var burst := ReadAll(decoder, "", pieces).1;
    ReadsAreABurst(decoder, "", pieces);
    FlushSpeaks(burst);
    var i :| 0 <= i < |burst| && burst[i] == None;
    assert Robust(burst[i]) && Refreshes(burst[i], Some(view));
  }

  lemma {:induction false} Utf8Append(a: string, b: string)
    ensures Utf8Length(a + b) == Utf8Length(a) + Utf8Length(b)
    decreases |a|
  {
    if a == "" {
      assert a + b == b;
    } else {
      assert (a + b)[1..] == a[1..] + b;
      Utf8Append(a[1..], b);
    }
  }

  lemma {:induction false} NormalizingShrinks(s: string)
    ensures Utf8Length(Normalize(s)) <= Utf8Length(s)
    decreases |s|
  {
    if s != "" {
      if StartsCrLf(s) {
        NormalizingShrinks(s[2..]);
        assert s[1..][1..] == s[2..];
        Utf8Append("\n", Normalize(s[2..]));
      } else {
        NormalizingShrinks(s[1..]);
        Utf8Append([s[0]], Normalize(s[1..]));
      }
    }
  }

  lemma {:induction false} SplittingShrinks(s: string)
    ensures Utf8Length(SplitRecords(s).remainder) <= Utf8Length(s)
    decreases |s|
  {
    if |s| >= 2 {
      if s[0] == '\n' && s[1] == '\n' {
        SplittingShrinks(s[2..]);
        assert s[1..][1..] == s[2..];
      } else {
        SplittingShrinks(s[1..]);
        Utf8Append([s[0]], SplitRecords(s[1..]).remainder);
      }
    }
  }

  /** A stream no longer than the limit never overflows the buffer, however it is cut. */
  lemma {:induction false} ShortStreamsFit(carry: string, pieces: seq<string>)
    requires Utf8Length(carry + Concat(pieces)) <= 131072
    ensures Fits(carry, pieces)
    decreases |pieces|
  {
    hide Utf8Length, SplitRecords, Normalize;
    if pieces != [] {
      var text := carry + pieces[0];
      var next := SplitRecords(Normalize(text)).remainder;
      assert carry + Concat(pieces) == text + Concat(pieces[1..]);
      Utf8Append(text, Concat(pieces[1..]));
      Utf8Append(next, Concat(pieces[1..]));
      NormalizingShrinks(text);
      SplittingShrinks(Normalize(text));
      ShortStreamsFit(next, pieces[1..]);
    }
  }
}
