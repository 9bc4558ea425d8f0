/**
 Server-sent-event framing (tui/src/event-stream.ts): a reader appends what
 arrives to the remainder it carries, normalises line ends, splits complete
 records off and keeps the rest.
 */
module SseFraming {
  import opened Wrappers
  import opened Text

  datatype Split = Split(records: seq<string>, remainder: string)

  datatype Frame = Frame(event: string, data: string, id: Option<string>)

  // ----- the parser

  /** `buffer.replace(/\r\n/gu, "\n")`. */
  function Normalize(s: string): string {
    if s == "" then ""
    else if s[0] == '\r' && |s| >= 2 && s[1] == '\n' then "\n" + Normalize(s[2..])
    else [s[0]] + Normalize(s[1..])
  }

  /** Puts one character in front of the first record, or of the remainder. */
  function Prepend(c: char, p: Split): Split {
    if p.records == [] then Split([], [c] + p.remainder)
    else Split([[c] + p.records[0]] + p.records[1..], p.remainder)
  }

  /** `split("\n\n")` with the last piece taken off as the remainder. */
  function SplitRecords(s: string): Split {
    if |s| < 2 then Split([], s)
    else if s[0] == '\n' && s[1] == '\n' then
      var p := SplitRecords(s[2..]);
      Split([""] + p.records, p.remainder)
    else Prepend(s[0], SplitRecords(s[1..]))
  }

  /** The value of the last line that carries the field, or the default. */
  function LastField(lines: seq<string>, field: string, default: string): string {
    if lines == [] then default
    else
      var line := lines[|lines| - 1];
      if StartsWith(line, field) then TrimStart(line[|field|..])
      else LastField(lines[..|lines| - 1], field, default)
  }

  /** The values of every line that carries the field, in order. */
  function AllFields(lines: seq<string>, field: string): seq<string> {
    if lines == [] then []
    else
      var line := lines[|lines| - 1];
      AllFields(lines[..|lines| - 1], field)
      + (if StartsWith(line, field) then [TrimStart(line[|field|..])] else [])
  }

  /** What one record means: nothing when it is over the limit or has no data. */
  function FrameOf(record: string, maxBytes: nat): Option<Frame> {
    var lines := Lines(record);
    var data := AllFields(lines, "data:");
    var id := LastField(lines, "id:", "");
    if Utf8Length(record) > maxBytes || data == [] then None
    else Some(Frame(LastField(lines, "event:", "message"), Join(data, "\n"), if id == "" then None else Some(id)))
  }

  function FramesOf(records: seq<string>, maxBytes: nat): seq<Frame> {
    if records == [] then []
    else
      (match FrameOf(records[0], maxBytes) case Some(f) => [f] case None => [])
      + FramesOf(records[1..], maxBytes)
  }

  /** The loop over one record's lines. */
  method DecodeRecord(record: string, maxBytes: nat) returns (frame: Option<Frame>)
    ensures frame == FrameOf(record, maxBytes)
  {
    if Utf8Length(record) > maxBytes {
      return None;
    }
    var event, id := "message", "";
    var data: seq<string> := [];
    var lines := Lines(record);
    for i := 0 to |lines|
      invariant event == LastField(lines[..i], "event:", "message")
      invariant id == LastField(lines[..i], "id:", "")
      invariant data == AllFields(lines[..i], "data:")
    {
      var line := lines[i];
      assert lines[..i + 1][..i] == lines[..i];
      if StartsWith(line, "event:") { event := TrimStart(line[6..]); }
      if StartsWith(line, "id:") { id := TrimStart(line[3..]); }
      if StartsWith(line, "data:") { data := data + [TrimStart(line[5..])]; }
    }
    assert lines[..|lines|] == lines;
    frame := if data == [] then None
             else Some(Frame(event, Join(data, "\n"), if id == "" then None else Some(id)));
  }

  method ParseSseFrames(buffer: string, maxBytes: nat) returns (frames: seq<Frame>, remainder: string)
    ensures var p := SplitRecords(Normalize(buffer));
            frames == FramesOf(p.records, maxBytes) && remainder == p.remainder
  {
    var p := SplitRecords(Normalize(buffer));
    remainder, frames := p.remainder, [];
    assert p.records[..0] == [];
    for i := 0 to |p.records|
      invariant frames == FramesOf(p.records[..i], maxBytes)
    {
      var frame := DecodeRecord(p.records[i], maxBytes);
      assert p.records[..i + 1] == p.records[..i] + [p.records[i]];
      FramesAppend(p.records[..i], [p.records[i]], maxBytes);
      if frame.Some? { frames := frames + [frame.value]; }
    }
    assert p.records[..|p.records|] == p.records;
  }

  lemma {:induction false} FramesAppend(a: seq<string>, b: seq<string>, maxBytes: nat)
    ensures FramesOf(a + b, maxBytes) == FramesOf(a, maxBytes) + FramesOf(b, maxBytes)
  {
    hide FrameOf;
    if a == [] {
      assert a + b == b;
    } else {
      assert (a + b)[1..] == a[1..] + b;
      FramesAppend(a[1..], b, maxBytes);
    }
  }

  // ----- what a frame is, line by line

  /** The line carries the field. */
  predicate Carries(line: string, field: string) {
    |field| <= |line| && forall i :: 0 <= i < |field| ==> line[i] == field[i]
  }

  /** The last line that carries the field stands at `k`. */
  predicate LastLine(lines: seq<string>, field: string, k: nat) {
    k < |lines| && Carries(lines[k], field) && forall j :: k < j < |lines| ==> !Carries(lines[j], field)
  }

  lemma CarriesIsStart(line: string, field: string)
    ensures Carries(line, field) <==> StartsWith(line, field)
  {
  }

  lemma {:induction false} LastFieldIsExact(lines: seq<string>, field: string, default: string)
    ensures forall k: nat :: LastLine(lines, field, k) ==>
              LastField(lines, field, default) == TrimStart(lines[k][|field|..])
    ensures (forall line :: line in lines ==> !Carries(line, field)) ==> LastField(lines, field, default) == default
  {
    hide Carries, TrimStart, LastLine, StartsWith;
    if lines == [] {
      NoLastLine(field);
    } else {
      var last := |lines| - 1;
      CarriesIsStart(lines[last], field);
      LastFieldIsExact(lines[..last], field, default);
      forall k: nat | LastLine(lines, field, k)
        ensures k < |lines| && |field| <= |lines[k]|
        ensures LastField(lines, field, default) == TrimStart(lines[k][|field|..])
      {
        LastLineOf(lines, field, k);
      }
    }
  }

  lemma NoLastLine(field: string)
    ensures forall k: nat :: !LastLine([], field, k)
  {
  }

  /** The last line that carries the field is the last of all, or that of the lines before it. */
  lemma LastLineOf(lines: seq<string>, field: string, k: nat)
    requires LastLine(lines, field, k)
    ensures |field| <= |lines[k]|
    ensures if Carries(lines[|lines| - 1], field) then k == |lines| - 1
            else k < |lines| - 1 && LastLine(lines[..|lines| - 1], field, k)
  {
  }

  /** These are the places of all lines that carry the field, and their values. */
  ghost predicate FieldsAt(lines: seq<string>, field: string, values: seq<string>, places: seq<nat>) {
    && |places| == |values|
    && (forall i, j :: 0 <= i < j < |places| ==> places[i] < places[j])
    && (forall i :: 0 <= i < |places| ==>
          && places[i] < |lines| && Carries(lines[places[i]], field)
          && values[i] == TrimStart(lines[places[i]][|field|..]))
    && (forall k :: 0 <= k < |lines| && Carries(lines[k], field) ==> k in places)
  }

  lemma {:induction false} AllFieldsAreExact(lines: seq<string>, field: string) returns (places: seq<nat>)
    ensures FieldsAt(lines, field, AllFields(lines, field), places)
  {
    if lines == [] {
      places := [];
    } else {
      hide FieldsAt, Carries, TrimStart;
      var rest, last := lines[..|lines| - 1], lines[|lines| - 1];
      places := AllFieldsAreExact(rest, field);
      CarriesIsStart(last, field);
      assert lines == rest + [last];
      OneMoreLine(rest, field, AllFields(rest, field), places, last);
      if Carries(last, field) {
        places := places + [|rest|];
      } else {
        assert AllFields(rest, field) + [] == AllFields(rest, field);
      }
    }
  }

  lemma OneMoreLine(lines: seq<string>, field: string, values: seq<string>, places: seq<nat>, last: string)
    requires FieldsAt(lines, field, values, places)
    ensures Carries(last, field) ==>
              FieldsAt(lines + [last], field, values + [TrimStart(last[|field|..])], places + [|lines|])
    ensures !Carries(last, field) ==> FieldsAt(lines + [last], field, values, places)
  {
    hide Carries, TrimStart;
    forall k | 0 <= k <= |lines| && Carries((lines + [last])[k], field) ensures k in places + [|lines|] {
      assert k < |lines| ==> k in places;
    }
  }

  lemma {:induction false} JoinedSplits(parts: seq<string>)
    requires parts != [] && forall i, j :: 0 <= i < |parts| && 0 <= j < |parts[i]| ==> parts[i][j] != '\n'
    ensures Lines(Join(parts, "\n")) == parts
    decreases |parts|
  {
    if |parts| == 1 {
      LineAlone(parts[0]);
    } else {
      JoinedSplits(parts[1..]);
      LineInFront(parts[0], Join(parts[1..], "\n"));
      assert parts == [parts[0]] + parts[1..];
    }
  }

  lemma {:induction false} LineAlone(line: string)
    requires forall j :: 0 <= j < |line| ==> line[j] != '\n'
    ensures Lines(line) == [line]
    decreases |line|
  {
    if line != "" {
      LineAlone(line[1..]);
      assert [line[0]] + line[1..] == line;
    }
  }

  lemma {:induction false} LineInFront(line: string, rest: string)
    requires forall j :: 0 <= j < |line| ==> line[j] != '\n'
    ensures Lines(line + "\n" + rest) == [line] + Lines(rest)
    decreases |line|
  {
    if line == "" {
      assert ("\n" + rest)[1..] == rest && line + "\n" + rest == "\n" + rest;
    } else {
      LineInFront(line[1..], rest);
      assert (line + "\n" + rest)[1..] == line[1..] + "\n" + rest;
      assert [line[0]] + line[1..] == line;
    }
  }

  lemma {:induction false} LinesHoldNoFeed(s: string)
    ensures forall i, j :: 0 <= i < |Lines(s)| && 0 <= j < |Lines(s)[i]| ==> Lines(s)[i][j] != '\n'
    decreases |s|
  {
    if s != "" {
      LinesHoldNoFeed(s[1..]);
    }
  }

  lemma {:induction false} TrimmedHoldsNoFeed(s: string)
    requires forall j :: 0 <= j < |s| ==> s[j] != '\n'
    ensures forall j :: 0 <= j < |TrimStart(s)| ==> TrimStart(s)[j] != '\n'
    decreases |s|
  {
    if s != "" && IsSpace(s[0]) {
      TrimmedHoldsNoFeed(s[1..]);
    }
  }

  /**
   A record within the limit that has a data line is a frame: its event and id
   are those of the last lines that carry them, and its data, line by line, is
   that of all data lines in order.
   */
  lemma FrameIsExact(record: string, maxBytes: nat) returns (places: seq<nat>)
    ensures var (lines, frame) := (Lines(record), FrameOf(record, maxBytes));
            && (frame.Some? <==>
                  Utf8Length(record) <= maxBytes && exists line :: line in lines && Carries(line, "data:"))
            && (frame.Some? ==>
                  && (forall k: nat :: LastLine(lines, "event:", k) ==> frame.value.event == TrimStart(lines[k][6..]))
                  && ((forall line :: line in lines ==> !Carries(line, "event:")) ==> frame.value.event == "message")
                  && (forall k: nat :: LastLine(lines, "id:", k) ==>
                        frame.value.id == if TrimStart(lines[k][3..]) == "" then None
                                          else Some(TrimStart(lines[k][3..])))
                  && ((forall line :: line in lines ==> !Carries(line, "id:")) ==> frame.value.id == None)
                  && FieldsAt(lines, "data:", Lines(frame.value.data), places))
  {
    hide Lines, TrimStart, Carries, Join;
    var lines := Lines(record);
    var data := AllFields(lines, "data:");
    LastFieldIsExact(lines, "event:", "message");
    LastFieldIsExact(lines, "id:", "");
    places := AllFieldsAreExact(lines, "data:");
    if data != [] {
      DataHoldsNoFeed(record, data, places);
      JoinedSplits(data);
      assert lines[places[0]] in lines;
    }
  }

  lemma DataHoldsNoFeed(record: string, data: seq<string>, places: seq<nat>)
    requires FieldsAt(Lines(record), "data:", data, places)
    ensures forall i, j :: 0 <= i < |data| && 0 <= j < |data[i]| ==> data[i][j] != '\n'
  {
    hide Lines, TrimStart, Carries;
    LinesHoldNoFeed(record);
    forall i | 0 <= i < |data| ensures forall j :: 0 <= j < |data[i]| ==> data[i][j] != '\n' {
      CarriesLength(Lines(record)[places[i]], "data:");
      TrimmedHoldsNoFeed(Lines(record)[places[i]][5..]);
    }
  }

  lemma CarriesLength(line: string, field: string)
    requires Carries(line, field)
    ensures |field| <= |line|
  {
  }

  // ----- splitting loses nothing

  /** The text the records and the remainder were cut from. */
  function Unsplit(records: seq<string>, remainder: string): string {
    if records == [] then remainder else records[0] + "\n\n" + Unsplit(records[1..], remainder)
  }

  predicate HasBlankLine(s: string) {
    |s| >= 2 && ((s[0] == '\n' && s[1] == '\n') || HasBlankLine(s[1..]))
  }

  predicate TwoFeedsAt(s: string, i: nat) {
    i + 1 < |s| && s[i] == '\n' && s[i + 1] == '\n'
  }

  lemma {:induction false} BlankLineIsTwoFeeds(s: string)
    ensures HasBlankLine(s) <==> exists i: nat :: TwoFeedsAt(s, i)
    decreases |s|
  {
    assert HasBlankLine(s) && s[0] == '\n' == s[1] ==> TwoFeedsAt(s, 0);
    if |s| >= 2 {
      BlankLineIsTwoFeeds(s[1..]);
      forall i: nat ensures TwoFeedsAt(s[1..], i) <==> TwoFeedsAt(s, i + 1) {
      }
      forall i: nat | TwoFeedsAt(s, i) && i > 0 ensures TwoFeedsAt(s[1..], i - 1) {
        assert TwoFeedsAt(s[1..], i - 1) <==> TwoFeedsAt(s, i - 1 + 1);
      }
    }
  }

  /** The first record, or the remainder when there is none. */
  function First(p: Split): string {
    if p.records == [] then p.remainder else p.records[0]
  }

  /** Rejoining gives the text back; neither a record nor the remainder holds a blank line. */
  lemma {:induction false} SplitIsExact(s: string)
    ensures var p := SplitRecords(s);
            && Unsplit(p.records, p.remainder) == s
            && !HasBlankLine(p.remainder)
            && (forall i :: 0 <= i < |p.records| ==> !HasBlankLine(p.records[i]))
            && (First(p) != "" ==> s != "" && First(p)[0] == s[0])
    decreases |s|
  {
    if |s| >= 2 {
      if s[0] == '\n' && s[1] == '\n' {
        SplitIsExact(s[2..]);
        assert "" + "\n\n" + s[2..] == s;
      } else {
        SplitIsExact(s[1..]);
        PrependIsExact(s[0], s[1..], SplitRecords(s[1..]));
        assert [s[0]] + s[1..] == s;
      }
    }
  }

  lemma PrependIsExact(c: char, s: string, p: Split)
    requires s != "" && !(c == '\n' && s[0] == '\n')
    requires Unsplit(p.records, p.remainder) == s && !HasBlankLine(p.remainder)
    requires forall i :: 0 <= i < |p.records| ==> !HasBlankLine(p.records[i])
    requires First(p) != "" ==> First(p)[0] == s[0]
    ensures var q := Prepend(c, p);
            && Unsplit(q.records, q.remainder) == [c] + s
            && !HasBlankLine(q.remainder)
            && (forall i :: 0 <= i < |q.records| ==> !HasBlankLine(q.records[i]))
            && First(q) == [c] + First(p)
  {
    PrependUnsplit(c, p);
    assert ([c] + First(p))[1..] == First(p);
    assert !HasBlankLine([c] + First(p));
  }

  lemma {:induction false} PrependUnsplit(c: char, p: Split)
    ensures var q := Prepend(c, p);
            Unsplit(q.records, q.remainder) == [c] + Unsplit(p.records, p.remainder)
  {
    if p.records != [] {
      assert Prepend(c, p).records[1..] == p.records[1..];
    }
  }

  // ----- feeding text piece by piece

  /** What a reader has produced and still carries after the pieces. */
  function Feed(carry: string, pieces: seq<string>): Split
    decreases |pieces|
  {
    if pieces == [] then Split([], carry)
    else
      var p := SplitRecords(Normalize(carry + pieces[0]));
      var rest := Feed(p.remainder, pieces[1..]);
      Split(p.records + rest.records, rest.remainder)
  }

  predicate HasCrCrLf(s: string) {
    |s| >= 3 && ((s[0] == '\r' && s[1] == '\r' && s[2] == '\n') || HasCrCrLf(s[1..]))
  }

  function Append(records: seq<string>, p: Split): Split {
    Split(records + p.records, p.remainder)
  }

  lemma AppendPrepend(c: char, p: Split, q: Split)
    requires p.records != []
    ensures Prepend(c, Append(p.records, q)) == Append(Prepend(c, p).records, q)
  {
    assert (p.records + q.records)[1..] == p.records[1..] + q.records;
  }

  lemma SplitCons(c: char, s: string)
    requires s != "" && !(c == '\n' && s[0] == '\n')
    ensures SplitRecords([c] + s) == Prepend(c, SplitRecords(s))
  {
    assert ([c] + s)[1..] == s;
  }

  lemma SplitBlank(s: string)
    ensures SplitRecords("\n\n" + s) == Append([""], SplitRecords(s))
  {
    assert ("\n\n" + s)[2..] == s;
  }

  /** Splitting may resume from the remainder. */
  lemma {:induction false} SplitResumes(a: string, b: string)
    ensures var p := SplitRecords(a);
            SplitRecords(a + b) == Append(p.records, SplitRecords(p.remainder + b))
    decreases |a|
  {
    if |a| < 2 {
      assert SplitRecords(a) == Split([], a);
    } else if a[0] == '\n' && a[1] == '\n' {
      SplitResumes(a[2..], b);
      assert a == "\n\n" + a[2..];
      SplitResumesBlank(a[2..], b);
    } else {
      SplitResumes(a[1..], b);
      assert a == [a[0]] + a[1..];
      SplitResumesCons(a[0], a[1..], b);
    }
  }

  lemma SplitResumesBlank(s: string, b: string)
    requires SplitRecords(s + b) == Append(SplitRecords(s).records, SplitRecords(SplitRecords(s).remainder + b))
    ensures var p := SplitRecords("\n\n" + s);
            SplitRecords("\n\n" + s + b) == Append(p.records, SplitRecords(p.remainder + b))
  {
    hide SplitRecords;
    SplitBlank(s);
    SplitBlank(s + b);
    assert "\n\n" + s + b == "\n\n" + (s + b);
  }

  lemma SplitResumesCons(c: char, s: string, b: string)
    requires s != "" && !(c == '\n' && s[0] == '\n')
    requires SplitRecords(s + b) == Append(SplitRecords(s).records, SplitRecords(SplitRecords(s).remainder + b))
    ensures var p := SplitRecords([c] + s);
            SplitRecords([c] + s + b) == Append(p.records, SplitRecords(p.remainder + b))
  {
    hide SplitRecords;
    var p := SplitRecords(s);
    SplitIsExact(s);
    SplitCons(c, s);
    SplitCons(c, s + b);
    assert [c] + s + b == [c] + (s + b);
    if p.records != [] {
      AppendPrepend(c, p, SplitRecords(p.remainder + b));
    }
  }

  predicate StartsCrLf(s: string) {
    |s| >= 2 && s[0] == '\r' && s[1] == '\n'
  }

  lemma NormalizeCons(c: char, s: string)
    requires !StartsCrLf([c] + s)
    ensures Normalize([c] + s) == [c] + Normalize(s)
  {
    assert ([c] + s)[1..] == s;
  }

  lemma NormalizeCrLf(s: string)
    ensures Normalize("\r\n" + s) == "\n" + Normalize(s)
  {
    assert ("\r\n" + s)[2..] == s;
  }

  /** Normalising twice changes nothing while no CR CR LF can form a new line end. */
  lemma {:induction false} NormalizeResumes(a: string, b: string)
    requires !HasCrCrLf(a + b)
    ensures Normalize(Normalize(a) + b) == Normalize(a + b)
    decreases |a|
  {
    if |a| < 2 {
      assert Normalize(a) == a;
    } else if StartsCrLf(a) {
      var s := a[2..];
      assert (a + b)[1..][1..] == s + b;
      NormalizeResumes(s, b);
      assert a == "\r\n" + s;
      NormalizeResumesCrLf(s, b);
    } else {
      var s := a[1..];
      assert (a + b)[1..] == s + b;
      NormalizeResumes(s, b);
      assert a == [a[0]] + s;
      NormalizeResumesCons(a[0], s, b);
    }
  }

  lemma NormalizeResumesCrLf(s: string, b: string)
    requires Normalize(Normalize(s) + b) == Normalize(s + b)
    ensures Normalize(Normalize("\r\n" + s) + b) == Normalize("\r\n" + s + b)
  {
    hide Normalize;
    NormalizeCrLf(s);
    NormalizeCrLf(s + b);
    NormalizeCons('\n', Normalize(s) + b);
    assert "\r\n" + s + b == "\r\n" + (s + b);
    assert "\n" + Normalize(s) + b == ['\n'] + (Normalize(s) + b);
  }

  lemma NormalizeResumesCons(c: char, s: string, b: string)
    requires s != "" && !StartsCrLf([c] + s) && !HasCrCrLf([c] + s + b)
    requires Normalize(Normalize(s) + b) == Normalize(s + b)
    ensures Normalize(Normalize([c] + s) + b) == Normalize([c] + s + b)
  {
    hide Normalize;
    NormalizeKeepsStart(c, s, b);
    NormalizeCons(c, s);
    NormalizeCons(c, s + b);
    NormalizeCons(c, Normalize(s) + b);
    assert [c] + s + b == [c] + (s + b);
    assert [c] + Normalize(s) + b == [c] + (Normalize(s) + b);
  }

  lemma NormalizeKeepsStart(c: char, s: string, b: string)
    requires s != "" && !StartsCrLf([c] + s) && !HasCrCrLf([c] + s + b)
    ensures !StartsCrLf([c] + (Normalize(s) + b)) && !StartsCrLf([c] + (s + b))
  {
    assert ([c] + s)[1] == s[0] && ([c] + s + b)[1] == s[0];
    if |s| >= 2 { assert ([c] + s + b)[2] == s[1]; }
    if c == '\r' {
      assert !StartsCrLf(s);
      assert Normalize(s)[0] == s[0];
    }
  }

  predicate HasCrLf(s: string) {
    |s| >= 2 && (StartsCrLf(s) || HasCrLf(s[1..]))
  }

  predicate EndsWith(s: string, end: string) {
    |end| <= |s| && s[|s| - |end|..] == end
  }

  /** Line ends are local: text that does not end in CR normalises on its own. */
  lemma {:induction false} NormalizeAppend(a: string, b: string)
    requires a != "" ==> a[|a| - 1] != '\r'
    ensures Normalize(a + b) == Normalize(a) + Normalize(b)
    decreases |a|
  {
    hide Normalize;
    if a == "" {
      NormalizeNothing(b);
    } else if StartsCrLf(a) {
      NormalizeAppend(a[2..], b);
      NormalizeAppendCrLf(a[2..], b);
      assert a == "\r\n" + a[2..];
    } else {
      NormalizeAppend(a[1..], b);
      StartsAlike(a, b);
      NormalizeAppendCons(a[0], a[1..], b);
      assert a == [a[0]] + a[1..];
    }
  }

  lemma NormalizeNothing(b: string)
    ensures Normalize("" + b) == Normalize("") + Normalize(b)
  {
    assert "" + b == b;
  }

  lemma StartsAlike(a: string, b: string)
    requires a != "" && a[|a| - 1] != '\r' && !StartsCrLf(a)
    ensures !StartsCrLf(a + b)
  {
    if |a| >= 2 {
      assert (a + b)[1] == a[1];
    }
  }

  lemma NormalizeAppendCrLf(s: string, b: string)
    requires Normalize(s + b) == Normalize(s) + Normalize(b)
    ensures Normalize("\r\n" + s + b) == Normalize("\r\n" + s) + Normalize(b)
  {
    hide Normalize;
    assert "\r\n" + s + b == "\r\n" + (s + b);
    NormalizeCrLf(s);
    NormalizeCrLf(s + b);
    assert "\n" + (Normalize(s) + Normalize(b)) == "\n" + Normalize(s) + Normalize(b);
  }

  lemma NormalizeAppendCons(c: char, s: string, b: string)
    requires !StartsCrLf([c] + s) && !StartsCrLf([c] + s + b)
    requires Normalize(s + b) == Normalize(s) + Normalize(b)
    ensures Normalize([c] + s + b) == Normalize([c] + s) + Normalize(b)
  {
    hide Normalize, StartsCrLf;
    assert [c] + s + b == [c] + (s + b);
    NormalizeCons(c, s);
    NormalizeCons(c, s + b);
    assert [c] + (Normalize(s) + Normalize(b)) == [c] + Normalize(s) + Normalize(b);
  }

  lemma {:induction false} NormalizeLength(s: string)
    ensures |Normalize(s)| <= |s|
    ensures Normalize(s) == s <==> !HasCrLf(s)
    ensures HasCrLf(s) ==> |Normalize(s)| < |s|
    decreases |s|
  {
    if StartsCrLf(s) {
      NormalizeLength(s[2..]);
    } else if s != "" {
      NormalizeLength(s[1..]);
      assert s == [s[0]] + s[1..];
    }
  }

  lemma {:induction false} NormalizedHasNoCrLf(s: string)
    requires !HasCrCrLf(s)
    ensures !HasCrLf(Normalize(s))
    decreases |s|
  {
    if StartsCrLf(s) {
      assert s[1..][1..] == s[2..];
      NormalizedHasNoCrLf(s[2..]);
    } else if |s| >= 2 {
      NormalizedHasNoCrLf(s[1..]);
      if s[0] == '\r' {
        assert !StartsCrLf(s[1..]);
        assert Normalize(s[1..])[0] == s[1];
      }
      assert Normalize(s)[1..] == Normalize(s[1..]);
    }
  }

  lemma {:induction false} PrefixHasNoCrLf(a: string, b: string)
    requires !HasCrLf(a + b)
    ensures !HasCrLf(a)
    decreases |a|
  {
    if |a| >= 2 {
      assert (a + b)[0] == a[0] && (a + b)[1] == a[1] && (a + b)[1..] == a[1..] + b;
      PrefixHasNoCrLf(a[1..], b);
    }
  }

  lemma {:induction false} PrefixHasNoCrCrLf(a: string, b: string)
    requires !HasCrCrLf(a + b)
    ensures !HasCrCrLf(a)
    decreases |a|
  {
    if |a| >= 3 {
      assert (a + b)[0] == a[0] && (a + b)[1] == a[1] && (a + b)[2] == a[2] && (a + b)[1..] == a[1..] + b;
      PrefixHasNoCrCrLf(a[1..], b);
    }
  }

  /** The text of the complete records alone. */
  function Done(p: Split): string {
    Unsplit(p.records, "")
  }

  lemma {:induction false} UnsplitEnds(records: seq<string>, remainder: string)
    ensures Unsplit(records, remainder) == Unsplit(records, "") + remainder
    ensures records != [] ==> EndsWith(Unsplit(records, ""), "\n")
    decreases |records|
  {
    if records != [] {
      UnsplitEnds(records[1..], remainder);
      var u := Unsplit(records[1..], "");
      if records[1..] == [] {
        assert u == "";
      }
      assert records[0] + "\n\n" + (u + remainder) == records[0] + "\n\n" + u + remainder;
    }
  }

  /** Cutting the remainder off leaves exactly the same records. */
  lemma {:induction false} SplitDone(s: string)
    ensures SplitRecords(Done(SplitRecords(s))) == Split(SplitRecords(s).records, "")
    decreases |s|
  {
    if |s| >= 2 {
      if s[0] == '\n' && s[1] == '\n' {
        SplitDone(s[2..]);
        SplitBlank(Done(SplitRecords(s[2..])));
      } else {
        SplitDone(s[1..]);
        var p := SplitRecords(s[1..]);
        SplitIsExact(s[1..]);
        UnsplitEnds(p.records, p.remainder);
        if p.records != [] {
          PrependUnsplit(s[0], Split(p.records, ""));
          assert Done(p) != "" && Done(p)[0] == s[1..][0];
          SplitCons(s[0], Done(p));
        }
      }
    }
  }

  /** One more piece, read on top of what is carried, equals reading all the text again. */
  lemma FeedStep(text: string, piece: string)
    requires !HasCrCrLf(text + piece)
    ensures var p := SplitRecords(Normalize(text));
            SplitRecords(Normalize(text + piece)) == Append(p.records, SplitRecords(Normalize(p.remainder + piece)))
  {
    hide Normalize, SplitRecords, HasCrCrLf, HasCrLf, HasBlankLine;
    var n := Normalize(text);
    var p := SplitRecords(n);
    var done := Done(p);
    SplitIsExact(n);
    UnsplitEnds(p.records, p.remainder);
    NormalizeResumes(text, piece);
    PrefixHasNoCrCrLf(text, piece);
    NormalizedHasNoCrLf(text);
    PrefixHasNoCrLf(done, p.remainder);
    NormalizeLength(done);
    assert n + piece == done + (p.remainder + piece);
    NormalizeAppend(done, p.remainder + piece);
    SplitDone(n);
    SplitResumes(done, Normalize(p.remainder + piece));
    assert "" + Normalize(p.remainder + piece) == Normalize(p.remainder + piece);
  }

  lemma {:induction false} FeedFrom(text: string, pieces: seq<string>)
    requires !HasCrCrLf(text + Concat(pieces))
    ensures var p := SplitRecords(Normalize(text));
            Append(p.records, Feed(p.remainder, pieces)) == SplitRecords(Normalize(text + Concat(pieces)))
    decreases |pieces|
  {
    var p := SplitRecords(Normalize(text));
    if pieces == [] {
      assert text + Concat(pieces) == text;
    } else {
      var longer := text + pieces[0];
      assert text + Concat(pieces) == longer + Concat(pieces[1..]);
      PrefixHasNoCrCrLf(longer, Concat(pieces[1..]));
      FeedStep(text, pieces[0]);
      FeedFrom(longer, pieces[1..]);
      var q := SplitRecords(Normalize(p.remainder + pieces[0]));
      AppendAssociates(p.records, q.records, Feed(q.remainder, pieces[1..]));
    }
  }

  lemma AppendAssociates(a: seq<string>, b: seq<string>, p: Split)
    ensures Append(a + b, p) == Append(a, Append(b, p))
  {
    assert a + b + p.records == a + (b + p.records);
  }

  lemma {:induction false} NormalizeEnds(s: string)
    requires EndsWith(s, "\r\r\n")
    ensures EndsWith(Normalize(s), "\r\n")
    decreases |s|
  {
    if |s| == 3 {
      assert s == "\r\r\n" && s[1..] == "\r\n";
      assert Normalize(s[1..]) == "\n";
      assert Normalize(s) == "\r\n";
    } else if StartsCrLf(s) {
      assert |s| > 4 by { assert s[|s| - 3..][0] == '\r'; }
      NormalizeEnds(s[2..]);
    } else {
      NormalizeEnds(s[1..]);
    }
  }

  lemma {:induction false} SplitEnds(s: string)
    requires EndsWith(s, "\r\n")
    ensures EndsWith(SplitRecords(s).remainder, "\r\n")
    decreases |s|
  {
    if |s| == 2 {
      assert s == "\r\n" && s[1..] == "\n";
      assert SplitRecords("\n") == Split([], "\n");
    } else if s[0] == '\n' && s[1] == '\n' {
      assert |s| > 3 by { assert s[|s| - 2..][0] == '\r'; }
      SplitEnds(s[2..]);
    } else {
      SplitEnds(s[1..]);
    }
  }

  lemma {:induction false} EndsHasCrLf(s: string)
    requires EndsWith(s, "\r\n")
    ensures HasCrLf(s) && s[|s| - 1] == '\n'
    decreases |s|
  {
    assert s[|s| - 2..][0] == '\r' && s[|s| - 2..][1] == '\n';
    if |s| > 2 {
      EndsHasCrLf(s[1..]);
    }
  }

  /** Cutting right after CR CR LF makes the reader form a line end the whole text does not have. */
  lemma FeedDiffers(a: string, b: string)
    requires EndsWith(a, "\r\r\n")
    ensures Feed("", [a, b]) != SplitRecords(Normalize(a + b))
  {
    var n := Normalize(a);
    var p := SplitRecords(n);
    var rest := Normalize(p.remainder + b);
    var q := SplitRecords(rest);
    NormalizeEnds(a);
    SplitEnds(n);
    EndsHasCrLf(p.remainder);
    NormalizeLength(p.remainder);
    NormalizeAppend(p.remainder, b);
    assert a[|a| - 1] == '\n' by { assert a[|a| - 3..][2] == '\n'; }
    NormalizeAppend(a, b);
    SplitIsExact(n);
    UnsplitEnds(p.records, p.remainder);
    SplitIsExact(rest);
    UnsplitAppend(p.records, q.records, q.remainder);
    assert |Unsplit(p.records + q.records, q.remainder)| < |Normalize(a + b)|;
    SplitIsExact(Normalize(a + b));
    FeedTwo(a, b);
  }

  lemma FeedTwo(a: string, b: string)
    ensures var p := SplitRecords(Normalize(a));
            Feed("", [a, b]) == Append(p.records, SplitRecords(Normalize(p.remainder + b)))
  {
    assert "" + a == a;
    var p := SplitRecords(Normalize(a));
    var q := SplitRecords(Normalize(p.remainder + b));
    assert [a, b][1..] == [b] && [b][1..] == [];
    assert Feed(p.remainder, [b]) == Split(q.records + [], q.remainder);
  }

  lemma {:induction false} UnsplitAppend(a: seq<string>, b: seq<string>, remainder: string)
    ensures Unsplit(a + b, remainder) == Unsplit(a, "") + Unsplit(b, remainder)
    decreases |a|
  {
    if a == [] {
      assert a + b == b;
    } else {
      assert (a + b)[1..] == a[1..] + b;
      UnsplitAppend(a[1..], b, remainder);
      var u, v := Unsplit(a[1..], ""), Unsplit(b, remainder);
      assert a[0] + "\n\n" + (u + v) == a[0] + "\n\n" + u + v;
    }
  }

  lemma {:induction false} CutAfterCrCrLf(s: string) returns (a: string, b: string)
    requires HasCrCrLf(s)
    ensures s == a + b && EndsWith(a, "\r\r\n")
    decreases |s|
  {
    if s[0] == '\r' && s[1] == '\r' && s[2] == '\n' {
      a, b := s[..3], s[3..];
    } else {
      a, b := CutAfterCrCrLf(s[1..]);
      a := [s[0]] + a;
    }
  }

  /**
   Framing does not depend on how the text was cut into pieces exactly when
   the text holds no CR CR LF: the records, their order and the final remainder
   are those of one call on the whole text.
   */
  lemma FramingIsIndependentOfChunking(text: string)
    ensures (forall pieces | Concat(pieces) == text :: Feed("", pieces) == SplitRecords(Normalize(text)))
            <==> !HasCrCrLf(text)
  {
    if HasCrCrLf(text) {
      var a, b := CutAfterCrCrLf(text);
      FeedDiffers(a, b);
      assert Concat([a, b]) == text by {
        assert [a, b][1..] == [b] && [b][1..] == [];
        assert Concat([b]) == b + [];
      }
    } else {
      forall pieces | Concat(pieces) == text
        ensures Feed("", pieces) == SplitRecords(Normalize(text))
      {
        assert "" + Concat(pieces) == text;
        FeedFrom("", pieces);
      }
    }
  }
}
