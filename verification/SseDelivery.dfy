/**
 The server's record printer (src/events/oven-event-feed.mjs) against the
 reader: whatever pieces the transport cuts the stream into, the reader sees
 exactly the frames the server wrote.
 */
module SseDelivery {
  import opened Wrappers
  import opened Text
  import opened SseFraming

  /** One line's worth of field value that `trimStart` leaves alone. */
  predicate FieldText(s: string) {
    && (forall i :: 0 <= i < |s| ==> s[i] != '\n' && s[i] != '\r')
    && (s != "" ==> !IsSpace(s[0]))
  }

  predicate Writable(f: Frame, maxBytes: nat) {
    && FieldText(f.event) && FieldText(f.data)
    && (f.id.Some? ==> f.id.value != "" && FieldText(f.id.value))
    && Utf8Length(Body(f)) <= maxBytes
  }

  /** `field: value` on a line of its own; `field` includes the colon. */
  function FieldLine(field: string, value: string): string {
    field + " " + value
  }

  function EventAndData(f: Frame): string {
    FieldLine("event:", f.event) + "\n" + FieldLine("data:", f.data)
  }

  function Body(f: Frame): string {
    if f.id.Some? then FieldLine("id:", f.id.value) + "\n" + EventAndData(f) else EventAndData(f)
  }

  /** The text of one record as the server writes it. */
  function Write(f: Frame): string {
    Body(f) + "\n\n"
  }

  function Bodies(fs: seq<Frame>): seq<string> {
    if fs == [] then [] else [Body(fs[0])] + Bodies(fs[1..])
  }

  function WriteAll(fs: seq<Frame>): string {
    if fs == [] then "" else Write(fs[0]) + WriteAll(fs[1..])
  }

  predicate OneLine(s: string) {
    forall i :: 0 <= i < |s| ==> s[i] != '\n'
  }

  lemma {:induction false} LinesCons(line: string, rest: string)
    requires OneLine(line)
    ensures Lines(line + "\n" + rest) == [line] + Lines(rest)
    ensures Lines(line) == [line]
    decreases |line|
  {
    if line == "" {
      assert line + "\n" + rest == "\n" + rest;
      assert ("\n" + rest)[1..] == rest;
    } else {
      LinesCons(line[1..], rest);
      assert (line + "\n" + rest)[1..] == line[1..] + "\n" + rest;
      assert [line[0]] + line[1..] == line;
    }
  }

  lemma FieldLineReadsBack(field: string, value: string)
    requires FieldText(value)
    ensures TrimStart(FieldLine(field, value)[|field|..]) == value
    ensures StartsWith(FieldLine(field, value), field)
  {
    assert FieldLine(field, value)[|field|..] == " " + value;
    assert (" " + value)[1..] == value;
  }

  function BodyLines(f: Frame): seq<string> {
    (if f.id.Some? then [FieldLine("id:", f.id.value)] else [])
    + [FieldLine("event:", f.event), FieldLine("data:", f.data)]
  }

  lemma WrittenLineIsOneLine(field: string, value: string)
    requires field in {"id:", "event:", "data:"} && FieldText(value)
    ensures OneLine(FieldLine(field, value))
  {
  }

  lemma LinesOfBody(f: Frame)
    requires FieldText(f.event) && FieldText(f.data) && (f.id.Some? ==> FieldText(f.id.value))
    ensures Lines(Body(f)) == BodyLines(f)
  {
    hide Lines, FieldLine, OneLine;
    var event, data := FieldLine("event:", f.event), FieldLine("data:", f.data);
    WrittenLineIsOneLine("event:", f.event);
    WrittenLineIsOneLine("data:", f.data);
    LinesCons(event, data);
    LinesCons(data, "");
    assert [event] + [data] == [event, data];
    if f.id.Some? {
      WrittenLineIsOneLine("id:", f.id.value);
      LinesCons(FieldLine("id:", f.id.value), EventAndData(f));
    }
  }

  lemma LastFieldStep(lines: seq<string>, line: string, field: string, default: string)
    ensures LastField(lines + [line], field, default)
         == if StartsWith(line, field) then TrimStart(line[|field|..]) else LastField(lines, field, default)
  {
    assert (lines + [line])[..|lines|] == lines;
  }

  lemma AllFieldsStep(lines: seq<string>, line: string, field: string)
    ensures AllFields(lines + [line], field)
         == AllFields(lines, field) + (if StartsWith(line, field) then [TrimStart(line[|field|..])] else [])
  {
    assert (lines + [line])[..|lines|] == lines;
  }

  /** A line of one field is no line of another. */
  lemma OtherField(line: string, field: string, other: string)
    requires StartsWith(line, field) && field != "" && other != "" && field[0] != other[0]
    ensures !StartsWith(line, other)
  {
    hide StartsWith;
    FirstCharacter(line, field);
    FirstCharacter(line, other);
  }

  lemma FirstCharacter(line: string, field: string)
    ensures StartsWith(line, field) && field != "" ==> line != "" && line[0] == field[0]
  {
  }

  /** Adding the event line and the data line to whatever came before them. */
  lemma FieldsOfEventAndData(before: seq<string>, event: string, data: string)
    requires StartsWith(event, "event:") && StartsWith(data, "data:")
    ensures LastField(before + [event] + [data], "event:", "message") == TrimStart(event[6..])
    ensures LastField(before + [event] + [data], "id:", "") == LastField(before, "id:", "")
    ensures AllFields(before + [event] + [data], "data:") == AllFields(before, "data:") + [TrimStart(data[5..])]
  {
    hide LastField, AllFields, TrimStart, StartsWith;
    OtherField(event, "event:", "id:");
    OtherField(event, "event:", "data:");
    OtherField(data, "data:", "id:");
    OtherField(data, "data:", "event:");
    LastFieldStep(before, event, "event:", "message");
    LastFieldStep(before + [event], data, "event:", "message");
    LastFieldStep(before, event, "id:", "");
    LastFieldStep(before + [event], data, "id:", "");
    AllFieldsStep(before, event, "data:");
    AllFieldsStep(before + [event], data, "data:");
    assert AllFields(before, "data:") + [] == AllFields(before, "data:");
  }

  /** Reading back one written record gives the frame. */
  lemma FrameOfBody(f: Frame, maxBytes: nat)
    requires Writable(f, maxBytes)
    ensures FrameOf(Body(f), maxBytes) == Some(f)
  {
    var event, data := FieldLine("event:", f.event), FieldLine("data:", f.data);
    FieldLineReadsBack("event:", f.event);
    FieldLineReadsBack("data:", f.data);
    LinesOfBody(f);
    var before := if f.id.Some? then [FieldLine("id:", f.id.value)] else [];
    assert BodyLines(f) == before + [event] + [data];
    FieldsOfEventAndData(before, event, data);
    assert [TrimStart(data[5..])] == [f.data];
    if f.id.Some? {
      FieldLineReadsBack("id:", f.id.value);
      assert before[0][0] == 'i';
      LastFieldStep([], before[0], "id:", "");
      AllFieldsStep([], before[0], "data:");
      assert [] + before == before;
    }
  }

  /** A record that neither holds a blank line nor ends in a line feed is split off whole. */
  lemma {:induction false} SplitFirst(body: string, rest: string)
    requires body != "" && !HasBlankLine(body) && body[|body| - 1] != '\n'
    ensures SplitRecords(body + "\n\n" + rest) == Append([body], SplitRecords(rest))
    decreases |body|
  {
    var s := body[1..] + "\n\n" + rest;
    assert body + "\n\n" + rest == [body[0]] + s;
    assert [body[0]] + body[1..] == body;
    if |body| == 1 {
      assert s == "\n\n" + rest;
      SplitBlank(rest);
    } else {
      assert s[0] == body[1];
      SplitFirst(body[1..], rest);
    }
    SplitCons(body[0], s);
  }

  lemma {:induction false} OneLineHasNoBlankLine(s: string)
    requires OneLine(s)
    ensures !HasBlankLine(s)
    decreases |s|
  {
    if |s| >= 2 {
      OneLineHasNoBlankLine(s[1..]);
    }
  }

  /** Two texts without a blank line, joined by one line feed. */
  lemma {:induction false} JoinedHasNoBlankLine(a: string, b: string)
    requires OneLine(a) && a != "" && b != "" && b[0] != '\n' && !HasBlankLine(b)
    ensures !HasBlankLine(a + "\n" + b)
    decreases |a|
  {
    var s := a + "\n" + b;
    assert s[0] == a[0];
    if |a| == 1 {
      assert s[1..] == "\n" + b && s[1..][1..] == b;
    } else {
      assert s[1..] == a[1..] + "\n" + b;
      JoinedHasNoBlankLine(a[1..], b);
    }
  }

  lemma FieldLineIsOneLine(field: string, value: string)
    requires field != "" && FieldText(field) && FieldText(value)
    ensures var line := FieldLine(field, value);
            OneLine(line) && NoCr(line) && line != "" && line[0] == field[0]
  {
  }

  lemma EventAndDataIsOneRecord(f: Frame)
    requires FieldText(f.event) && FieldText(f.data)
    ensures var both := EventAndData(f);
            both != "" && both[0] == 'e' && !HasBlankLine(both) && both[|both| - 1] != '\n' && NoCr(both)
  {
    hide HasBlankLine;
    var event, data := FieldLine("event:", f.event), FieldLine("data:", f.data);
    FieldLineIsOneLine("event:", f.event);
    FieldLineIsOneLine("data:", f.data);
    assert "event:"[0] == 'e' && "data:"[0] == 'd';
    OneLineHasNoBlankLine(data);
    JoinedHasNoBlankLine(event, data);
    var both := event + "\n" + data;
    assert both[|both| - 1] == data[|data| - 1];
  }

  lemma BodyIsOneRecord(f: Frame)
    requires FieldText(f.event) && FieldText(f.data) && (f.id.Some? ==> FieldText(f.id.value))
    ensures Body(f) != "" && !HasBlankLine(Body(f)) && Body(f)[|Body(f)| - 1] != '\n' && NoCr(Body(f))
  {
    hide HasBlankLine;
    var both := EventAndData(f);
    EventAndDataIsOneRecord(f);
    if f.id.Some? {
      var id := FieldLine("id:", f.id.value);
      FieldLineIsOneLine("id:", f.id.value);
      JoinedHasNoBlankLine(id, both);
      assert Body(f)[|Body(f)| - 1] == both[|both| - 1];
    }
  }

  predicate NoCr(s: string) {
    forall i :: 0 <= i < |s| ==> s[i] != '\r'
  }

  lemma {:induction false} NoCrIsNormal(s: string)
    requires NoCr(s)
    ensures !HasCrCrLf(s) && Normalize(s) == s
    decreases |s|
  {
    if s != "" {
      NoCrIsNormal(s[1..]);
      assert [s[0]] + s[1..] == s;
    }
  }

  lemma {:induction false} WrittenHasNoCr(fs: seq<Frame>, maxBytes: nat)
    requires forall i :: 0 <= i < |fs| ==> Writable(fs[i], maxBytes)
    ensures NoCr(WriteAll(fs))
    decreases |fs|
  {
    if fs != [] {
      BodyIsOneRecord(fs[0]);
      WrittenHasNoCr(fs[1..], maxBytes);
    }
  }

  lemma {:induction false} WrittenSplits(fs: seq<Frame>, maxBytes: nat)
    requires forall i :: 0 <= i < |fs| ==> Writable(fs[i], maxBytes)
    ensures SplitRecords(WriteAll(fs)) == Split(Bodies(fs), "")
    decreases |fs|
  {
    if fs != [] {
      WrittenSplits(fs[1..], maxBytes);
      BodyIsOneRecord(fs[0]);
      SplitFirst(Body(fs[0]), WriteAll(fs[1..]));
    }
  }

  lemma {:induction false} WrittenDecodes(fs: seq<Frame>, maxBytes: nat)
    requires forall i :: 0 <= i < |fs| ==> Writable(fs[i], maxBytes)
    ensures FramesOf(Bodies(fs), maxBytes) == fs
    decreases |fs|
  {
    if fs != [] {
      WrittenDecodes(fs[1..], maxBytes);
      FrameOfBody(fs[0], maxBytes);
      FramesCons(Body(fs[0]), Bodies(fs[1..]), maxBytes);
    }
  }

  lemma FramesCons(record: string, records: seq<string>, maxBytes: nat)
    requires FrameOf(record, maxBytes).Some?
    ensures FramesOf([record] + records, maxBytes) == [FrameOf(record, maxBytes).value] + FramesOf(records, maxBytes)
  {
    assert ([record] + records)[1..] == records;
  }

  /**
   End to end: any frames the server prints, cut into any pieces, reach the
   reader complete, unchanged and in order, and nothing is left over.
   */
  lemma EveryFrameIsDelivered(fs: seq<Frame>, pieces: seq<string>, maxBytes: nat)
    requires forall i :: 0 <= i < |fs| ==> Writable(fs[i], maxBytes)
    requires Concat(pieces) == WriteAll(fs)
    ensures var got := Feed("", pieces);
            FramesOf(got.records, maxBytes) == fs && got.remainder == ""
  {
    WrittenHasNoCr(fs, maxBytes);
    WrittenSplits(fs, maxBytes);
    WrittenDecodes(fs, maxBytes);
    NoCrIsNormal(WriteAll(fs));
    FramingIsIndependentOfChunking(WriteAll(fs));
  }
}
