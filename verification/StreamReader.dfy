/** The incremental event-stream reader: frames end at blank lines, a frame's first data line is its payload. */
module StreamReader {
  import opened Outcomes
  import opened Strings

  const FRAME_END := "\n\n"
  const DATA_PREFIX := "data: "

  predicate StartsWith(s: string, prefix: string) {
    |s| >= |prefix| && s[..|prefix|] == prefix
  }

  /** `lines.find(line => line.startsWith('data: '))` */
  function FindDataLine(lines: seq<string>): (line: Option<string>)
    ensures line.Some? ==> line.value in lines && StartsWith(line.value, DATA_PREFIX)
  {
    if lines == [] then None
    else if StartsWith(lines[0], DATA_PREFIX) then Some(lines[0])
    else FindDataLine(lines[1..])
  }

  /** The text after the prefix of the first data line: one payload, or none. */
  function PayloadOfLines(lines: seq<string>): seq<string> {
    match FindDataLine(lines)
    case None => []
    case Some(line) => [line[|DATA_PREFIX|..]]
  }

  function FramePayload(frame: string): seq<string> {
    PayloadOfLines(Split(frame, "\n"))
  }

  /** The payloads of the frames that have one, in order. */
  function Payloads(frames: seq<string>): seq<string> {
    if frames == [] then [] else Payloads(DropLast(frames)) + FramePayload(Last(frames))
  }

  function Concat(chunks: seq<string>): string {
    if chunks == [] then "" else Concat(DropLast(chunks)) + Last(chunks)
  }

  /** Reading a whole text at once: every frame but the unfinished last piece. */
  function WholeTextPayloads(text: string): seq<string> {
    Payloads(DropLast(Split(text, FRAME_END)))
  }

  lemma {:induction false} PayloadsConcat(a: seq<string>, b: seq<string>)
    ensures Payloads(a + b) == Payloads(a) + Payloads(b)
  {
    if b == [] {
      assert a + b == a;
    } else {
      var head, last := DropLast(b), FramePayload(Last(b));
      assert DropLast(a + b) == a + head && Last(a + b) == Last(b);
      PayloadsConcat(a, head);
      assert Payloads(a + b) == Payloads(a + head) + last && Payloads(b) == Payloads(head) + last;
      hide Payloads, FramePayload;
    }
  }

  /** One more chunk: the frames it completes are those of the carried piece with the chunk appended. */
  lemma NextChunk(before: string, chunk: string)
    ensures var frames := Split(Last(Split(before, FRAME_END)) + chunk, FRAME_END);
      && WholeTextPayloads(before + chunk) == WholeTextPayloads(before) + Payloads(DropLast(frames))
      && Last(Split(before + chunk, FRAME_END)) == Last(frames)
  {
    hide Split, Payloads;
    SplitResumes(before, chunk, FRAME_END);
    var pieces, frames := Split(before, FRAME_END), Split(Last(Split(before, FRAME_END)) + chunk, FRAME_END);
    assert DropLast(DropLast(pieces) + frames) == DropLast(pieces) + DropLast(frames);
    PayloadsConcat(DropLast(pieces), DropLast(frames));
  }

  /** The payloads of one batch of complete frames, yielded in order. */
  method YieldPayloads(frames: seq<string>, earlier: seq<string>) returns (yielded: seq<string>)
    ensures yielded == earlier + Payloads(frames)
  {
    hide Split;
    yielded := earlier;
    for j := 0 to |frames|
      invariant yielded == earlier + Payloads(frames[..j])
    {
      assert DropLast(frames[..j + 1]) == frames[..j];
      var dataLine := FindDataLine(Split(frames[j], "\n"));
      if dataLine.Some? {
        yielded := yielded + [dataLine.value[|DATA_PREFIX|..]];
      }
    }
    assert frames[..|frames|] == frames;
  }

  // ---- What a server writes is what the reader yields ----

  /** One frame: the lines around its first data line, or lines none of which is one. */
  datatype Frame = Data(before: seq<string>, payload: string, after: seq<string>) | NoData(lines: seq<string>)

  function LinesOf(frame: Frame): seq<string> {
    match frame
    case Data(before, payload, after) => before + ["data: " + payload] + after
    case NoData(lines) => lines
  }

  /** No line holds a newline, and none but the first is blank; the data line is the first one. */
  predicate IsFrame(frame: Frame) {
    && AreLines(LinesOf(frame))
    && HaveNoData(if frame.Data? then frame.before else frame.lines)
  }

  predicate HaveNoData(lines: seq<string>) {
    forall k :: 0 <= k < |lines| ==> !("data: " <= lines[k])
  }

  predicate AreLines(lines: seq<string>) {
    && lines != []
    && (forall line <- lines :: '\n' !in line)
    && forall k :: 1 <= k < |lines| ==> lines[k] != ""
  }

  /** A frame as a server writes it: its lines and a blank one. */
  function Written(lines: seq<string>): string {
    if lines == [] then "\n" else lines[0] + "\n" + Written(lines[1..])
  }

  function WrittenFrames(frames: seq<Frame>): string {
    if frames == [] then "" else Written(LinesOf(frames[0])) + WrittenFrames(frames[1..])
  }

  function PayloadsOf(frames: seq<Frame>): seq<string> {
    if frames == [] then []
    else (if frames[0].Data? then [frames[0].payload] else []) + PayloadsOf(frames[1..])
  }

  predicate HasNoBlankLine(s: string) {
    forall j :: 0 <= j < |s| - 1 ==> s[j] != '\n' || s[j + 1] != '\n'
  }

  /** The first line that starts with "data: " gives the payload, whatever follows it. */
  lemma {:induction false} FirstDataLineIsYielded(before: seq<string>, payload: string, after: seq<string>)
    requires HaveNoData(before)
    ensures PayloadOfLines(before + ["data: " + payload] + after) == [payload]
  {
    var lines, line := before + ["data: " + payload] + after, "data: " + payload;
    if before == [] {
      assert lines[0] == line && line[6..] == payload;
    } else {
      assert lines[0] == before[0];
      assert lines[1..] == before[1..] + [line] + after;
      FirstDataLineIsYielded(before[1..], payload, after);
    }
  }

  lemma {:induction false} NoDataLineYieldsNothing(lines: seq<string>)
    requires HaveNoData(lines)
    ensures PayloadOfLines(lines) == []
  {
    if lines != [] {
      NoDataLineYieldsNothing(lines[1..]);
    }
  }

  lemma FrameYieldsItsPayload(frame: Frame)
    requires IsFrame(frame)
    ensures PayloadOfLines(LinesOf(frame)) == if frame.Data? then [frame.payload] else []
  {
    if frame.Data? {
      FirstDataLineIsYielded(frame.before, frame.payload, frame.after);
    } else {
      NoDataLineYieldsNothing(frame.lines);
    }
  }

  lemma {:induction false} WrittenIsJoined(lines: seq<string>)
    requires lines != []
    ensures Written(lines) == Join(lines, "\n") + "\n\n"
  {
    if |lines| == 1 {
      assert Written(lines) == lines[0] + "\n" + "\n" && "\n" + "\n" == "\n\n";
    } else {
      WrittenIsJoined(lines[1..]);
    }
  }

  lemma {:induction false} LinesHaveNoBlankLine(lines: seq<string>)
    requires AreLines(lines)
    ensures HasNoBlankLine(Join(lines, "\n") + "\n")
    ensures lines[0] != "" ==> Join(lines, "\n") != "" && Join(lines, "\n")[0] != '\n'
  {
    assert lines[0] in lines;
    assert lines[0] != "" ==> lines[0][0] in lines[0];
    var s, n := Join(lines, "\n") + "\n", |lines[0]|;
    if |lines| == 1 {
      forall j | 0 <= j < |s| - 1
        ensures s[j] != '\n'
      {
        assert s[j] in lines[0];
      }
    } else {
      var rest := Join(lines[1..], "\n");
      assert forall line <- lines[1..] :: line in lines;
      LinesHaveNoBlankLine(lines[1..]);
      assert s == lines[0] + "\n" + (rest + "\n");
      forall j | 0 <= j < |s| - 1
        ensures s[j] != '\n' || s[j + 1] != '\n'
      {
        if j < n {
          assert s[j] == lines[0][j];
        } else if j == n {
          assert s[j + 1] == rest[0];
        } else {
          assert s[j] == (rest + "\n")[j - n - 1] && s[j + 1] == (rest + "\n")[j - n];
        }
      }
    }
  }

  /** A frame's text ends at the first blank line after it. */
  lemma FrameEndsFirst(head: string, tail: string)
    requires HasNoBlankLine(head + "\n")
    ensures Split(head + FRAME_END + tail, FRAME_END) == [head] + Split(tail, FRAME_END)
  {
    var text := head + FRAME_END + tail;
    forall j | 0 <= j < |head|
      ensures !OccursAt(text, FRAME_END, j)
    {
      assert text[j] == (head + "\n")[j] && text[j + 1] == (head + "\n")[j + 1];
      assert text[j..j + 2] == [text[j], text[j + 1]];
    }
    assert text[|head|..|head| + 2] == FRAME_END;
    assert OccursAt(text, FRAME_END, |head|);
    assert IndexFrom(text, FRAME_END, 0) == |head|;
    assert text[..|head|] == head && text[|head| + 2..] == tail;
  }

  lemma LinesAreSplit(lines: seq<string>)
    requires AreLines(lines)
    ensures Split(Join(lines, "\n"), "\n") == lines
  {
    SplitUndoesJoin(lines, '\n');
  }

  lemma UnfinishedIsOnePiece(rest: string)
    requires HasNoBlankLine(rest)
    ensures Split(rest, FRAME_END) == [rest]
  {
    hide IndexFrom;
    forall j | 0 <= j < |rest|
      ensures !OccursAt(rest, FRAME_END, j)
    {
      if j + 2 <= |rest| {
        assert rest[j..j + 2] == [rest[j], rest[j + 1]];
      }
    }
  }

  function FrameTexts(frames: seq<Frame>): seq<string> {
    if frames == [] then [] else [Join(LinesOf(frames[0]), "\n")] + FrameTexts(frames[1..])
  }

  lemma {:induction false} WrittenFramesSplit(frames: seq<Frame>, rest: string)
    requires forall frame <- frames :: IsFrame(frame)
    requires HasNoBlankLine(rest)
    ensures Split(WrittenFrames(frames) + rest, FRAME_END) == FrameTexts(frames) + [rest]
  {
    hide Join, Split, LinesOf, AreLines, HasNoBlankLine, IsFrame, Written;
    if frames == [] {
      UnfinishedIsOnePiece(rest);
      assert WrittenFrames(frames) + rest == rest;
    } else {
      var lines, tail := LinesOf(frames[0]), WrittenFrames(frames[1..]) + rest;
      assert frames[0] in frames && forall frame <- frames[1..] :: frame in frames;
      FrameHasLines(frames[0]);
      LinesHaveNoBlankLine(lines);
      WrittenIsJoined(lines);
      FrameEndsFirst(Join(lines, "\n"), tail);
      assert WrittenFrames(frames) + rest == Written(lines) + tail;
      WrittenFramesSplit(frames[1..], rest);
    }
  }

  lemma FrameHasLines(frame: Frame)
    requires IsFrame(frame)
    ensures LinesOf(frame) != [] && AreLines(LinesOf(frame))
  {
  }

  lemma {:induction false} PayloadsOfTexts(frames: seq<Frame>)
    requires forall frame <- frames :: IsFrame(frame)
    ensures Payloads(FrameTexts(frames)) == PayloadsOf(frames)
  {
    hide Join, Split, PayloadOfLines, LinesOf, AreLines;
    if frames != [] {
      var text := Join(LinesOf(frames[0]), "\n");
      assert frames[0] in frames && forall frame <- frames[1..] :: frame in frames;
      LinesAreSplit(LinesOf(frames[0]));
      FrameYieldsItsPayload(frames[0]);
      PayloadsOfTexts(frames[1..]);
      PayloadsConcat([text], FrameTexts(frames[1..]));
      assert DropLast([text]) == [] && Payloads([text]) == FramePayload(text);
    }
  }

  /** Written frames are read back exactly, in order; an unfinished frame at the end of the stream is not delivered. */
  lemma FramesRoundTrip(frames: seq<Frame>, rest: string)
    requires forall frame <- frames :: IsFrame(frame)
    requires HasNoBlankLine(rest)
    ensures WholeTextPayloads(WrittenFrames(frames) + rest) == PayloadsOf(frames)
    ensures Last(Split(WrittenFrames(frames) + rest, FRAME_END)) == rest
  {
    WrittenFramesSplit(frames, rest);
    PayloadsOfTexts(frames);
    assert DropLast(FrameTexts(frames) + [rest]) == FrameTexts(frames);
  }

  // ---- Every stream is of that form ----

  function WithLine(line: string, frame: Frame): (longer: Frame)
    ensures LinesOf(longer) == [line] + LinesOf(frame)
  {
    match frame
    case Data(before, payload, after) =>
      assert [line] + before + ["data: " + payload] + after == [line] + (before + ["data: " + payload] + after);
      Data([line] + before, payload, after)
    case NoData(lines) => NoData([line] + lines)
  }

  lemma {:induction false} FirstDataLine(lines: seq<string>) returns (frame: Frame)
    ensures LinesOf(frame) == lines && HaveNoData(if frame.Data? then frame.before else frame.lines)
  {
    if lines == [] {
      frame := NoData([]);
    } else if "data: " <= lines[0] {
      frame := Data([], lines[0][6..], lines[1..]);
      assert lines[0] == "data: " + lines[0][6..];
      assert lines == [] + [lines[0]] + lines[1..];
    } else {
      var rest := FirstDataLine(lines[1..]);
      assert lines == [lines[0]] + lines[1..];
      frame := WithLine(lines[0], rest);
      hide LinesOf;
    }
  }

  lemma {:induction false} TextSplitsIntoLines(s: string)
    requires HasNoBlankLine(s + "\n")
    ensures AreLines(Split(s, "\n"))
    ensures s != "" && s[0] != '\n' ==> Split(s, "\n")[0] != ""
    decreases |s|
  {
    PiecesLackSeparator(s, "\n");
    var lines, i := Split(s, "\n"), IndexFrom(s, "\n", 0);
    forall line <- lines
      ensures '\n' !in line
    {
      NoNewline(line);
    }
    if i < |s| {
      assert s[i..i + 1] == "\n" && s[i] == '\n' && (s + "\n")[i] == '\n';
      var rest := s[i + 1..];
      assert rest + "\n" == (s + "\n")[i + 1..];
      assert (s + "\n")[i + 1] != '\n';
      TextSplitsIntoLines(rest);
      assert lines == [s[..i]] + Split(rest, "\n");
    }
  }

  lemma NoNewline(line: string)
    requires !Contains(line, "\n")
    ensures '\n' !in line
  {
    if '\n' in line {
      var k :| 0 <= k < |line| && line[k] == '\n';
      assert line[k..k + 1] == "\n" && OccursAt(line, "\n", k);
    }
  }

  lemma NoBlankLineBefore(text: string, i: nat)
    requires i == IndexFrom(text, FRAME_END, 0)
    ensures forall j :: 0 <= j < i && j + 2 <= |text| ==> text[j] != '\n' || text[j + 1] != '\n'
    ensures i < |text| ==> i + 2 <= |text| && text[i] == text[i + 1] == '\n'
  {
    hide IndexFrom;
    forall j | 0 <= j < i && j + 2 <= |text|
      ensures text[j] != '\n' || text[j + 1] != '\n'
    {
      assert !OccursAt(text, FRAME_END, j) && text[j..j + 2] == [text[j], text[j + 1]];
    }
    if i < |text| {
      assert text[i..i + 2] == FRAME_END;
      assert text[i] == text[i..i + 2][0] && text[i + 1] == text[i..i + 2][1];
    }
  }

  lemma FirstFrame(text: string, i: nat) returns (frame: Frame)
    requires i == IndexFrom(text, FRAME_END, 0) < |text|
    ensures i + 2 <= |text| && IsFrame(frame) && text == Written(LinesOf(frame)) + text[i + 2..]
  {
    hide IndexFrom, Split, Join, Written, HaveNoData;
    NoBlankLineBefore(text, i);
    var head := text[..i];
    assert head + "\n" == text[..i + 1];
    TextSplitsIntoLines(head);
    JoinUndoesSplit(head, "\n");
    var lines := Split(head, "\n");
    WrittenIsJoined(lines);
    frame := FirstDataLine(lines);
    assert text == head + "\n\n" + text[i + 2..];
  }

  /** Any text at all is frames followed by an unfinished one. */
  lemma {:induction false} EveryTextIsFrames(text: string) returns (frames: seq<Frame>, rest: string)
    ensures forall frame <- frames :: IsFrame(frame)
    ensures HasNoBlankLine(rest) && text == WrittenFrames(frames) + rest
    decreases |text|
  {
    hide IndexFrom, Written, LinesOf, IsFrame;
    var i := IndexFrom(text, FRAME_END, 0);
    NoBlankLineBefore(text, i);
    if i == |text| {
      return [], text;
    }
    var frame := FirstFrame(text, i);
    frames, rest := EveryTextIsFrames(text[i + 2..]);
    assert text == Written(LinesOf(frame)) + (WrittenFrames(frames) + rest);
    frames := [frame] + frames;
  }

  // ---- The loop ----

  lemma {:induction false} ConcatIsAssociative(a: seq<string>, b: seq<string>)
    ensures Concat(a + b) == Concat(a) + Concat(b)
    ensures |b| == 1 ==> Concat(b) == b[0]
  {
    if b == [] {
      assert a + b == a;
    } else {
      assert DropLast(a + b) == a + DropLast(b);
      ConcatIsAssociative(a, DropLast(b));
      assert Concat(a + b) == Concat(a) + Concat(DropLast(b)) + Last(b);
    }
  }

  lemma EmptyText()
    ensures WholeTextPayloads("") == [] && Last(Split("", FRAME_END)) == ""
  {
  }

  /** The text is these frames and an unfinished one. */
  ghost predicate IsWrittenAs(text: string, frames: seq<Frame>, unfinished: string) {
    && (forall frame <- frames :: IsFrame(frame))
    && HasNoBlankLine(unfinished)
    && text == WrittenFrames(frames) + unfinished
  }

  /** The loop over the chunks as they arrive; JSON decoding of the payloads is left to the consumer. */
  method ReadStream(chunks: seq<string>) returns (yielded: seq<string>, buffer: string)
    ensures yielded == WholeTextPayloads(Concat(chunks))
    ensures buffer == Last(Split(Concat(chunks), FRAME_END))
    ensures exists frames :: IsWrittenAs(Concat(chunks), frames, buffer) && yielded == PayloadsOf(frames)
  {
    yielded, buffer := [], "";
    hide Split, Payloads, WholeTextPayloads, IsFrame, HasNoBlankLine;
    EmptyText();
    for i := 0 to |chunks|
      invariant yielded == WholeTextPayloads(Concat(chunks[..i]))
      invariant buffer == Last(Split(Concat(chunks[..i]), FRAME_END))
    {
      assert DropLast(chunks[..i + 1]) == chunks[..i] && Last(chunks[..i + 1]) == chunks[i];
      NextChunk(Concat(chunks[..i]), chunks[i]);
      buffer := buffer + chunks[i];
      var frames := Split(buffer, FRAME_END);
      buffer := Last(frames);
      frames := DropLast(frames);
      yielded := YieldPayloads(frames, yielded);
    }
    assert chunks[..|chunks|] == chunks;
    ghost var frames, rest := EveryTextIsFrames(Concat(chunks));
    FramesRoundTrip(frames, rest);
    assert IsWrittenAs(Concat(chunks), frames, buffer);
  }

  /** The carried buffer never holds a whole frame. */
  lemma BufferHoldsNoFrame(chunks: seq<string>)
    ensures !Contains(Last(Split(Concat(chunks), FRAME_END)), FRAME_END)
  {
    PiecesLackSeparator(Concat(chunks), FRAME_END);
    var pieces := Split(Concat(chunks), FRAME_END);
    assert Last(pieces) in pieces;
  }
}
