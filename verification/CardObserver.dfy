/**
 The card stream of the streaming-diff view
 (tui/src/oven-runtime/streaming-diff-stream.ts): cards are kept within bounds
 by withholding, never by cutting, and are delivered on a timer.
 */
module CardObserver {
  import opened Wrappers
  import opened Text
  import opened Json
  import opened SseFraming
  import EventObserver
  import SseDelivery

  const CARDS := 200
  const CARD_TEXT_BYTES := 32 * 1024
  const LIMIT_REASON := "Terminal card text limit exceeded."
  const FRAME_ERROR := "Streaming Diff frame exceeded the terminal limit; reconciling."
  const CARD_ERROR := "Streaming Diff card exceeded the terminal limit; reconciling."
  const INVALID_ERROR := "Received an invalid Streaming Diff card."
  const CLOSED_ERROR := "The stream disconnected; reconnecting."

  // ----- Bounding the cards -----

  function MetaFields(file: Json): map<string, Json> {
    match Get(file, "meta")
    case Some(Record(fields)) => fields
    case _ => map[]
  }

  predicate OverLimit(file: Json) {
    match TextAt(file, "diff")
    case Some(diff) => Utf8Length(diff) > CARD_TEXT_BYTES
    case None => false
  }

  /** The record that stands for a file whose diff is withheld. */
  function Withheld(file: Json): Json
    requires OverLimit(file)
  {
    var bytes := Utf8Length(TextAt(file, "diff").value) as real;
    var meta := MetaFields(file)["bytes" := Number(bytes)]["reason" := Text(LIMIT_REASON)];
    Record((file.fields - {"diff"})["kind" := Text("truncated")]["meta" := Record(meta)])
  }

  function BoundFile(file: Json): Json {
    if OverLimit(file) then Withheld(file) else file
  }

  /** The files of a card; a card without a list of files has none. */
  function Files(card: Json): seq<Json> {
    match Get(card, "files")
    case Some(List(files)) => files
    case _ => []
  }

  function BoundCard(card: Json): Json {
    match Get(card, "files")
    case Some(List(files)) =>
      Record(card.fields["files" := List(seq(|files|, i requires 0 <= i < |files| => BoundFile(files[i])))])
    case _ => card
  }

  function Newest(cards: seq<Json>): seq<Json> {
    if |cards| > CARDS then cards[|cards| - CARDS..] else cards
  }

  function BoundCards(cards: seq<Json>): seq<Json> {
    var kept := Newest(cards);
    seq(|kept|, i requires 0 <= i < |kept| => BoundCard(kept[i]))
  }

  /** The file carries a diff of more than 32 KiB. */
  predicate TooLong(file: Json) {
    && file.Record? && "diff" in file.fields && file.fields["diff"].Text?
    && Utf8Length(file.fields["diff"].text) > 32768
  }

  ghost predicate BoundedCard(card: Json) {
    forall i :: 0 <= i < |Files(card)| ==> !TooLong(Files(card)[i])
  }

  /** At most 200 cards, and no file among them carries an over-limit diff. */
  ghost predicate Bounded(cards: seq<Json>) {
    |cards| <= 200 && forall i :: 0 <= i < |cards| ==> BoundedCard(cards[i])
  }

  /** What is known about the file, apart from its length and why it is withheld. */
  function Meta(file: Json): map<string, Json>
    requires file.Record?
  {
    if "meta" in file.fields && file.fields["meta"].Record? then file.fields["meta"].fields else map[]
  }

  /**
   A bounded file is the file itself; where the diff is too long it is the same
   record without the diff, marked as truncated, that says how long the diff was.
   */
  ghost predicate Faithful(before: Json, after: Json) {
    if !TooLong(before) then after == before
    else
      && after.Record? && "diff" !in after.fields
      && "kind" in after.fields && after.fields["kind"] == Text("truncated")
      && Meta(after) == Meta(before)["bytes" := Number(Utf8Length(before.fields["diff"].text) as real)]
                                    ["reason" := Text("Terminal card text limit exceeded.")]
      && forall name :: name !in {"diff", "kind", "meta"} ==>
           Lookup(after.fields, name) == Lookup(before.fields, name)
  }

  lemma BoundFileIsFaithful(file: Json)
    ensures Faithful(file, BoundFile(file)) && !TooLong(BoundFile(file))
  {
    assert TooLong(file) <==> OverLimit(file);
    if OverLimit(file) {
      var after := Withheld(file);
      assert MetaFields(file) == Meta(file);
      assert after.fields["meta"].Record?;
    }
  }

  lemma BoundCardIsFaithful(card: Json)
    ensures BoundedCard(BoundCard(card))
    ensures |Files(BoundCard(card))| == |Files(card)|
    ensures forall i :: 0 <= i < |Files(card)| ==> Faithful(Files(card)[i], Files(BoundCard(card))[i])
    ensures BoundedCard(card) ==> BoundCard(card) == card
  {
    var files := Files(card);
    forall i | 0 <= i < |files|
      ensures Faithful(files[i], BoundFile(files[i])) && !TooLong(BoundFile(files[i]))
    {
      BoundFileIsFaithful(files[i]);
    }
    if BoundedCard(card) && BoundCard(card).Record? && card.Record? {
      assert Files(BoundCard(card)) == files;
      assert BoundCard(card).fields == card.fields;
    }
  }

  /** The newest 200 cards, in order, with their too long diffs withheld and nothing else changed. */
  ghost predicate KeepsNewest(cards: seq<Json>, kept: seq<Json>) {
    var first := if |cards| > 200 then |cards| - 200 else 0;
    && |kept| == |cards| - first
    && forall c :: 0 <= c < |kept| ==> BoundedAs(cards[first + c], kept[c])
  }

  /** The files of a card, one by one; a card without too long diffs is the same card. */
  ghost predicate BoundedAs(card: Json, bounded: Json) {
    && |Files(bounded)| == |Files(card)|
    && (forall f :: 0 <= f < |Files(card)| ==> Faithful(Files(card)[f], Files(bounded)[f]))
    && (BoundedCard(card) ==> bounded == card)
    && (card.Record? ==>
          && bounded.Record?
          && forall name :: name != "files" ==> Lookup(bounded.fields, name) == Lookup(card.fields, name))
  }

  /**
   The bound keeps the newest cards in order, withholds exactly the over-limit
   diffs, and changes nothing when there is nothing to withhold.
   */
  lemma BoundIsExact(cards: seq<Json>)
    ensures Bounded(BoundCards(cards))
    ensures BoundCards(cards) == cards <==> Bounded(cards)
    ensures BoundCards(BoundCards(cards)) == BoundCards(cards)
    ensures KeepsNewest(cards, BoundCards(cards))
  {
    BoundIsBounded(cards);
    BoundChangesNothing(BoundCards(cards));
    if Bounded(cards) {
      BoundChangesNothing(cards);
    }
    forall c | 0 <= c < |Newest(cards)|
      ensures BoundedAs(Newest(cards)[c], BoundCards(cards)[c])
    {
      BoundCardIsFaithful(Newest(cards)[c]);
    }
  }

  lemma BoundIsBounded(cards: seq<Json>)
    ensures Bounded(BoundCards(cards))
  {
    var kept := Newest(cards);
    forall i | 0 <= i < |kept|
      ensures BoundedCard(BoundCards(cards)[i])
    {
      BoundCardIsFaithful(kept[i]);
    }
  }

  lemma BoundChangesNothing(cards: seq<Json>)
    requires Bounded(cards)
    ensures BoundCards(cards) == cards
  {
    forall i | 0 <= i < |cards|
      ensures BoundCards(cards)[i] == cards[i]
    {
      BoundCardIsFaithful(cards[i]);
    }
  }

  // ----- What one stream does to the cards -----

  /** `applyStreamingDiffCardMessage`; None stands for its exception. */
  type Apply = (seq<Json>, string) -> Option<seq<Json>>

  datatype Stream = Stream(cards: seq<Json>, cursor: string, dirty: bool, errors: seq<string>)

  /** One frame: a reset, an over-limit card, an accepted card or a refused one. */
  function Card(apply: Apply, s: Stream, frame: Frame): Stream {
    if frame.event == "reset" then s.(cards := [], dirty := true)
    else if Utf8Length(frame.data) > CARD_TEXT_BYTES then
      s.(cards := [], dirty := true, errors := s.errors + [CARD_ERROR])
    else
      match apply(s.cards, frame.data)
      case None => s.(errors := s.errors + [INVALID_ERROR])
      case Some(cards) => s.(cards := BoundCards(cards), dirty := true, cursor := frame.id.GetOr(s.cursor))
  }

  function CardsOf(apply: Apply, s: Stream, frames: seq<Frame>): Stream
    decreases |frames|
  {
    if frames == [] then s else CardsOf(apply, Card(apply, s, frames[0]), frames[1..])
  }

  lemma CardsOfNothing(apply: Apply, s: Stream)
    ensures CardsOf(apply, s, []) == s
  {
  }

  /** The response header, when there is one, overrules the cursor after every read. */
  function Headed(s: Stream, header: string): Stream {
    if header == "" then s else s.(cursor := header)
  }

  /** One read: the text carried on, and the stream after it. */
  function Read(apply: Apply, header: string, carry: string, s: Stream, piece: string): (string, Stream) {
    if Utf8Length(carry + piece) > EventObserver.REMAINDER_BYTES then
      ("", s.(cards := [], dirty := true, errors := s.errors + [FRAME_ERROR]))
    else
      var p := SplitRecords(Normalize(carry + piece));
      (p.remainder, Headed(CardsOf(apply, s, FramesOf(p.records, EventObserver.FRAME_BYTES)), header))
  }

  function ReadAll(apply: Apply, header: string, carry: string, s: Stream, pieces: seq<string>): (string, Stream)
    decreases |pieces|
  {
    if pieces == [] then (carry, s)
    else
      var (next, after) := Read(apply, header, carry, s, pieces[0]);
      ReadAll(apply, header, next, after, pieces[1..])
  }

  lemma {:induction false} CardsAppend(apply: Apply, s: Stream, a: seq<Frame>, b: seq<Frame>)
    ensures CardsOf(apply, s, a + b) == CardsOf(apply, CardsOf(apply, s, a), b)
    decreases |a|
  {
    if a == [] {
      assert a + b == b;
    } else {
      assert (a + b)[1..] == a[1..] + b;
      CardsAppend(apply, Card(apply, s, a[0]), a[1..], b);
    }
  }

  lemma CardsSnoc(apply: Apply, s: Stream, frames: seq<Frame>, last: Frame)
    ensures CardsOf(apply, s, frames + [last]) == Card(apply, CardsOf(apply, s, frames), last)
  {
    CardsAppend(apply, s, frames, [last]);
    assert [last][1..] == [];
  }

  /** The cursor never influences the cards: a run with the header is the run without it, headed. */
  lemma {:induction false} HeaderOnlyMovesCursor(apply: Apply, s: Stream, frames: seq<Frame>, header: string)
    ensures Headed(CardsOf(apply, Headed(s, header), frames), header) == Headed(CardsOf(apply, s, frames), header)
    decreases |frames|
  {
    if frames != [] {
      var one, two := Card(apply, s, frames[0]), Card(apply, Headed(s, header), frames[0]);
      assert Headed(one, header) == Headed(two, header);
      HeaderOnlyMovesCursor(apply, one, frames[1..], header);
      HeaderOnlyMovesCursor(apply, two, frames[1..], header);
    }
  }

  /** Reading pieces is reading, in one go, the frames the framer makes of all of them. */
  lemma {:induction false} ReadAllIsFeed(apply: Apply, header: string, carry: string, s: Stream, pieces: seq<string>)
    requires EventObserver.Fits(carry, pieces) && pieces != []
    ensures var fed := Feed(carry, pieces);
            ReadAll(apply, header, carry, s, pieces)
            == (fed.remainder, Headed(CardsOf(apply, s, FramesOf(fed.records, EventObserver.FRAME_BYTES)), header))
    decreases |pieces|
  {
    hide Card, Normalize, SplitRecords, FrameOf;
    var limit := EventObserver.FRAME_BYTES;
    var p := SplitRecords(Normalize(carry + pieces[0]));
    var first := CardsOf(apply, s, FramesOf(p.records, limit));
    if |pieces| == 1 {
      assert p.records + [] == p.records;
      assert pieces[1..] == [];
    } else {
      var rest := Feed(p.remainder, pieces[1..]);
      ReadAllIsFeed(apply, header, p.remainder, Headed(first, header), pieces[1..]);
      HeaderOnlyMovesCursor(apply, first, FramesOf(rest.records, limit), header);
      FramesAppend(p.records, rest.records, limit);
      CardsAppend(apply, s, FramesOf(p.records, limit), FramesOf(rest.records, limit));
    }
  }

  /** However the transport cuts the text, the cards, the cursor and the errors come out the same. */
  lemma CardsAreIndependentOfChunking(apply: Apply, header: string, s: Stream, xs: seq<string>, ys: seq<string>)
    requires Concat(xs) == Concat(ys) && !HasCrCrLf(Concat(xs)) && xs != [] && ys != []
    requires EventObserver.Fits("", xs) && EventObserver.Fits("", ys)
    ensures ReadAll(apply, header, "", s, xs) == ReadAll(apply, header, "", s, ys)
  {
    hide CardsOf, Headed, FramesOf, ReadAll, Feed, Normalize, SplitRecords;
    FramingIsIndependentOfChunking(Concat(xs));
    ReadAllIsFeed(apply, header, "", s, xs);
    ReadAllIsFeed(apply, header, "", s, ys);
  }

  lemma {:induction false} CardsStayBounded(apply: Apply, s: Stream, frames: seq<Frame>)
    requires Bounded(s.cards)
    ensures Bounded(CardsOf(apply, s, frames).cards)
    ensures CardsOf(apply, s, frames).dirty || CardsOf(apply, s, frames).cards == s.cards
    ensures s.dirty ==> CardsOf(apply, s, frames).dirty
    decreases |frames|
  {
    if frames != [] {
      var next := Card(apply, s, frames[0]);
      assert Bounded(next.cards) by {
        hide Bounded, BoundCards;
        EmptyIsBounded();
        var applied := apply(s.cards, frames[0].data);
        if applied.Some? {
          BoundIsBounded(applied.value);
        }
      }
      CardsStayBounded(apply, next, frames[1..]);
    }
  }

  lemma EmptyIsBounded()
    ensures Bounded([])
  {
  }

  /**
   End to end: what the last of the frames the server wrote makes of the cards
   the frames before it left, whatever pieces they arrive in.
   */
  lemma LastFrameDecides(apply: Apply, header: string, s: Stream, fs: seq<Frame>, last: Frame, pieces: seq<string>)
    requires forall i :: 0 <= i < |fs| ==> SseDelivery.Writable(fs[i], EventObserver.FRAME_BYTES)
    requires SseDelivery.Writable(last, EventObserver.FRAME_BYTES)
    requires Concat(pieces) == SseDelivery.WriteAll(fs + [last]) && EventObserver.Fits("", pieces) && pieces != []
    ensures var (before, after) := (CardsOf(apply, s, fs), ReadAll(apply, header, "", s, pieces).1);
            var applied := apply(before.cards, last.data);
            && (header != "" ==> after.cursor == header)
            && if last.event == "reset" then
                 after.cards == [] && after.dirty && after.errors == before.errors
               else if Utf8Length(last.data) > 32768 then
                 after.cards == [] && after.dirty && |after.errors| == |before.errors| + 1
               else if applied.None? then
                 after.cards == before.cards && after.dirty == before.dirty && |after.errors| == |before.errors| + 1
               else
                 && KeepsNewest(applied.value, after.cards) && after.dirty && after.errors == before.errors
                 && (header == "" && last.id.Some? ==> after.cursor == last.id.value)
  {
    hide FramesOf, Feed, BoundCards, KeepsNewest, SseDelivery.Writable, SseDelivery.WriteAll;
    var all := fs + [last];
    assert forall i :: 0 <= i < |all| ==> all[i] == if i < |fs| then fs[i] else last;
    SseDelivery.EveryFrameIsDelivered(all, pieces, EventObserver.FRAME_BYTES);
    ReadAllIsFeed(apply, header, "", s, pieces);
    CardsSnoc(apply, s, fs, last);
    var applied := apply(CardsOf(apply, s, fs).cards, last.data);
    if applied.Some? {
      BoundIsExact(applied.value);
    }
  }

  // ----- The observer -----

  /** Why a connection ended other than by closing. */
  datatype Failure = Aborted | Refused(message: string)

  class CardObserver {
    const apply: Apply
    var stopped: bool
    var connecting: bool
    /** The retry timer is armed. */
    var retry: bool
    /** The delivery timer is armed. */
    var coalesce: bool
    var cardsDirty: bool
    var cursor: string
    var cards: seq<Json>
    /** The incomplete record of the open stream. */
    var pending: string

    /** Everything handed to `onCards` and to `onError`. */
    ghost var delivered: seq<seq<Json>>
    ghost var errors: seq<string>
    /** A connection was aborted by something else than `Dispose`. */
    ghost var abandoned: bool
    /** The cards the observer was started with. */
    ghost const seed: seq<Json>

    /** The list a reader of the cards last saw. */
    ghost function Shown(): seq<Json>
      reads this
    {
      if delivered == [] then seed else delivered[|delivered| - 1]
    }

    ghost predicate Valid()
      reads this
    {
      && Bounded(cards) && Bounded(seed)
      && (forall i :: 0 <= i < |delivered| ==> Bounded(delivered[i]))
      && (stopped ==> !coalesce && !retry && !cardsDirty)
      && (!stopped ==> (cardsDirty <==> coalesce))
      && (!stopped && !cardsDirty ==> cards == Shown())
      && (!stopped && !abandoned ==> (connecting <==> !retry))
      && (!stopped && abandoned ==> !connecting && !retry)
    }

    ghost function State(): Stream
      reads this
    {
      Stream(cards, cursor, cardsDirty, errors)
    }

    constructor (apply: Apply, cards: seq<Json>)
      ensures Valid() && !stopped && connecting && !abandoned && this.apply == apply
      ensures seed == BoundCards(cards) && delivered == [] && pending == ""
      ensures State() == Stream(BoundCards(cards), "", false, [])
    {
      this.apply := apply;
      stopped, connecting, retry, coalesce, cardsDirty := false, true, false, false, false;
      this.cards, seed, cursor, pending := BoundCards(cards), BoundCards(cards), "", "";
      delivered, errors, abandoned := [], [], false;
      BoundIsBounded(cards);
    }

    /** `flushCards`: hands over the cards if they changed since they were last shown. */
    method FlushCards()
      requires Valid()
      modifies this`coalesce, this`cardsDirty, this`delivered
      ensures Valid() && !cardsDirty && !coalesce
      ensures delivered == old(delivered) + (if old(cardsDirty) then [cards] else [])
      ensures !stopped ==> Shown() == cards
    {
      coalesce := false;
      if !stopped && cardsDirty {
        cardsDirty := false;
        delivered := delivered + [cards];
      }
    }

    method CoalesceFires()
      requires Valid() && coalesce
      modifies this`coalesce, this`cardsDirty, this`delivered
      ensures Valid() && !cardsDirty && !coalesce && delivered == old(delivered) + [cards]
    {
      FlushCards();
    }

    /** The body of the loop over the frames of one read. */
    method Take(frame: Frame)
      requires Valid() && !stopped
      modifies this`cards, this`cursor, this`cardsDirty, this`coalesce, this`errors
      ensures Valid() && State() == Card(apply, old(State()), frame)
    {
      hide Bounded, BoundCards;
      EmptyIsBounded();
      if frame.event == "reset" {
        cards, cardsDirty, coalesce := [], true, true;
      } else if Utf8Length(frame.data) > CARD_TEXT_BYTES {
        cards, cardsDirty, coalesce := [], true, true;
        errors := errors + [CARD_ERROR];
      } else {
        var applied := apply(cards, frame.data);
        if applied.Some? {
          BoundIsBounded(applied.value);
          cards := BoundCards(applied.value);
          cursor := frame.id.GetOr(cursor);
          cardsDirty, coalesce := true, true;
        } else {
          errors := errors + [INVALID_ERROR];
        }
      }
    }

    /** The loop over the frames of one read. */
    method Consume(frames: seq<Frame>)
      requires Valid() && !stopped
      modifies this`cards, this`cursor, this`cardsDirty, this`coalesce, this`errors
      ensures Valid() && State() == CardsOf(apply, old(State()), frames)
    {
      hide Bounded, CardsOf, Card;
      ghost var start := State();
      CardsOfNothing(apply, start);
      assert frames[..0] == [];
      for i := 0 to |frames|
        invariant Valid()
        invariant State() == CardsOf(apply, start, frames[..i])
      {
        CardsSnoc(apply, start, frames[..i], frames[i]);
        assert frames[..i + 1] == frames[..i] + [frames[i]];
        Take(frames[i]);
      }
      assert frames[..|frames|] == frames;
    }

    /** One read of the open stream. After `Dispose` the read only ends the connection. */
    method Receive(piece: string, header: string)
      requires Valid() && connecting
      modifies this`cards, this`cursor, this`cardsDirty, this`coalesce, this`errors, this`pending, this`connecting
      ensures Valid()
      ensures !stopped ==> connecting && (pending, State()) == Read(apply, header, old(pending), old(State()), piece)
      ensures stopped ==> !connecting && State() == old(State())
    {
      hide Bounded, CardsOf, Card, FramesOf, Normalize, SplitRecords, BoundCards;
      if stopped {
        connecting := false;
        return;
      }
      var text := pending + piece;
      if Utf8Length(text) > EventObserver.REMAINDER_BYTES {
        EmptyIsBounded();
        pending, cards, cardsDirty, coalesce := "", [], true, true;
        errors := errors + [FRAME_ERROR];
      } else {
        var frames, remainder := ParseSseFrames(text, EventObserver.FRAME_BYTES);
        pending := remainder;
        Consume(frames);
        if header != "" {
          cursor := header;
        }
      }
    }

    /** The peer closed the stream: what changed is shown before the reconnect is scheduled. */
    method Closed()
      requires Valid() && connecting
      modifies this`coalesce, this`cardsDirty, this`delivered, this`connecting, this`retry, this`pending, this`errors
      ensures Valid() && !connecting && retry == !stopped && !cardsDirty && pending == ""
      ensures delivered == old(delivered) + (if old(cardsDirty) then [cards] else [])
      ensures errors == old(errors) + (if stopped then [] else [CLOSED_ERROR])
    {
      FlushCards();
      if !stopped {
        errors, retry := errors + [CLOSED_ERROR], true;
      }
      connecting, pending := false, "";
    }

    /** The connection failed: changed cards wait for their timer; an abort schedules no retry. */
    method Failed(failure: Failure)
      requires Valid() && connecting
      modifies this`connecting, this`retry, this`pending, this`errors, this`abandoned
      ensures Valid() && !connecting && pending == ""
      ensures retry == (!stopped && failure.Refused?)
      ensures abandoned == (old(abandoned) || (!stopped && failure.Aborted?))
      ensures errors == old(errors) + (if !stopped && failure.Refused? then [failure.message] else [])
    {
      if !stopped && failure.Refused? {
        errors, retry := errors + [failure.message], true;
      } else if !stopped {
        abandoned := true;
      }
      connecting, pending := false, "";
    }

    method RetryFires()
      requires Valid() && retry
      modifies this`connecting, this`retry
      ensures Valid() && connecting && !retry
    {
      retry, connecting := false, true;
    }

    method Dispose()
      requires Valid()
      modifies this`stopped, this`retry, this`coalesce, this`cardsDirty
      ensures Valid() && stopped
    {
      stopped, retry, coalesce, cardsDirty := true, false, false, false;
    }
  }
}
