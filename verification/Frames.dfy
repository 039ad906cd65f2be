// The frames a streamed chat completion is made of, from the upstream's lines
// (app/upstream/client.py) or the guardrails backend's tokens (app/guardrails/service.py),
// through the leak guard and the relay (app/api/routes/chat.py), to the client.
module Frames {
  import opened Wrappers
  import opened ToolCalls
  import opened LeakGuard
  import opened LeakPolicy
  import opened LeakScan

  datatype Usage = Usage(prompt: nat, completion: nat, total: nat)

  // What a generator of frames does: raise before its first frame, or yield some. For errors
  // that come from a library or from the upstream itself, the code only stands for theirs.
  datatype Run = Raised(code: string) | Yielded(frames: seq<Frame>)

  // Exactly one terminal frame, and it is the last.
  predicate WellEnded(fs: seq<Frame>) {
    && fs != [] && fs[|fs| - 1].Done?
    && forall i :: 0 <= i < |fs| - 1 ==> !fs[i].Done?
  }

  predicate Disciplined(run: Run) {
    run.Yielded? ==> WellEnded(run.frames)
  }

  // ----- One upstream line -----

  // What JSON decoding leaves of a line's data, as far as anyone looks at it. `choices` is
  // the empty list, or missing or otherwise false, or true without an element 0 (a number,
  // `true`, an object), or has an element 0, with a delta or not.
  datatype Choices = EmptyList | Absent | NotIndexable | First(delta: Option<Delta>)
  datatype Json = Json(usage: Option<Usage>, choices: Choices)
  datatype Delta = Delta(content: Option<string>, fragments: seq<Fragment>)
  type Decoder = string -> Option<Json>

  function SseData(line: string): Option<string> {
    if !("data:" <= line) then None
    else
      var value := line[5..];
      Some(if " " <= value then value[1..] else value)
  }

  predicate EndsStream(line: string) {
    SseData(line) == Some("[DONE]")
  }

  function DecodedLine(line: string, decode: Decoder): Option<Json> {
    match SseData(line)
    case None => None
    case Some(data) => if data == "[DONE]" then None else decode(data)
  }

  // The usage of a usage-only chunk; other chunks that mention usage are ordinary ones.
  function UsageIn(line: string, decode: Decoder): Option<Usage> {
    match DecodedLine(line, decode)
    case None => None
    case Some(j) => if j.choices.EmptyList? then j.usage else None
  }

  function FrameOf(data: string, j: Json): (r: Frame)
    ensures !r.Done?
  {
    match j.choices
    case First(Some(d)) => Chunk(d.content, d.fragments, data)
    case NotIndexable => Unreadable(data)
    case _ => Other(data)
  }

  function FramesOfLine(line: string, decode: Decoder, relay: bool): seq<Frame> {
    match DecodedLine(line, decode)
    case None => []
    case Some(j) => if UsageIn(line, decode).Some? && !relay then [] else [FrameOf(SseData(line).value, j)]
  }

  // ----- All upstream lines -----

  // Where the upstream ends its stream; the number of lines if it does not.
  function EndAt(lines: seq<string>): (r: nat)
    ensures r <= |lines|
  {
    if lines == [] then 0
    else
      var before := EndAt(lines[..|lines| - 1]);
      if before < |lines| - 1 || EndsStream(lines[|lines| - 1]) then before else |lines|
  }

  function Body(lines: seq<string>, decode: Decoder, relay: bool): seq<Frame> {
    if lines == [] then []
    else Body(lines[..|lines| - 1], decode, relay) + FramesOfLine(lines[|lines| - 1], decode, relay)
  }

  function LastUsage(lines: seq<string>, decode: Decoder): Option<Usage> {
    if lines == [] then None
    else
      var u := UsageIn(lines[|lines| - 1], decode);
      if u.Some? then u else LastUsage(lines[..|lines| - 1], decode)
  }

  function Closing(ended: bool, interrupted: bool): seq<Frame> {
    if interrupted && !ended then [Error("upstream_disconnected"), Done] else [Done]
  }

  // Everything yielded for these lines, when the connection breaks after them or closes.
  function UpstreamFrames(lines: seq<string>, interrupted: bool, decode: Decoder, relay: bool): seq<Frame> {
    var k := EndAt(lines);
    Body(lines[..k], decode, relay) + Closing(k < |lines|, interrupted)
  }

  lemma {:induction false} EndAtFacts(lines: seq<string>)
    ensures forall i :: 0 <= i < EndAt(lines) ==> !EndsStream(lines[i])
    ensures EndAt(lines) < |lines| ==> EndsStream(lines[EndAt(lines)])
  {
    if lines != [] {
      EndAtFacts(lines[..|lines| - 1]);
    }
  }

  // Reading position k has got to, as long as no line before it ends the stream.
  lemma ReadingPosition(lines: seq<string>, k: nat)
    requires k <= |lines| && forall i :: 0 <= i < k ==> !EndsStream(lines[i])
    ensures k <= EndAt(lines)
    ensures k < |lines| && EndsStream(lines[k]) ==> k == EndAt(lines)
    ensures k == |lines| ==> k == EndAt(lines)
  {
    EndAtFacts(lines);
  }

  lemma NoUsageWithoutData(line: string, decode: Decoder)
    ensures UsageIn(line, decode).Some? ==> DecodedLine(line, decode).Some?
    ensures DecodedLine(line, decode).Some? ==> SseData(line).Some?
  {
  }

  // What one more line adds.
  lemma ReadLine(lines: seq<string>, k: nat, decode: Decoder, relay: bool)
    requires k < |lines|
    ensures Body(lines[..k + 1], decode, relay) == Body(lines[..k], decode, relay) + FramesOfLine(lines[k], decode, relay)
    ensures var u := UsageIn(lines[k], decode);
            LastUsage(lines[..k + 1], decode) == if u.Some? then u else LastUsage(lines[..k], decode)
  {
    assert lines[..k + 1][..k] == lines[..k];
  }

  // What reading position k still has to yield when nothing is left to read.
  lemma Ending(lines: seq<string>, k: nat, interrupted: bool, decode: Decoder, relay: bool)
    requires k <= |lines| && forall i :: 0 <= i < k ==> !EndsStream(lines[i])
    requires k == |lines| || EndsStream(lines[k])
    ensures k == EndAt(lines)
    ensures UpstreamFrames(lines, interrupted, decode, relay) == Body(lines[..k], decode, relay) + Closing(k < |lines|, interrupted)
  {
    ReadingPosition(lines, k);
  }

  // The generator of frames as the relay pulls it: each call reads lines up to the next frame.
  class UpstreamStream {
    const lines: seq<string>
    const interrupted: bool
    const decode: Decoder
    const relay: bool
    var position: nat
    var failed: bool
    var finished: bool
    var usage: Option<Usage>
    ghost var yielded: seq<Frame>

    ghost predicate Valid()
      reads this
    {
      && position <= |lines|
      && usage == LastUsage(lines[..position], decode)
      && (if finished then yielded == UpstreamFrames(lines, interrupted, decode, relay) && position == EndAt(lines)
          else
            && (forall i :: 0 <= i < position ==> !EndsStream(lines[i]))
            && (failed ==> interrupted && position == |lines|)
            && yielded == Body(lines[..position], decode, relay) + if failed then [Error("upstream_disconnected")] else [])
    }

    // At most this many frames are still to come.
    ghost function Remaining(): int
      reads this
    {
      if finished then 0 else |lines| - position + if failed then 1 else 2
    }

    constructor (lines: seq<string>, interrupted: bool, decode: Decoder, relay: bool)
      ensures Valid() && yielded == [] && !finished
      ensures this.lines == lines && this.interrupted == interrupted && this.decode == decode && this.relay == relay
    {
      this.lines, this.interrupted, this.decode, this.relay := lines, interrupted, decode, relay;
      position, failed, finished, usage, yielded := 0, false, false, None, [];
    }

    // The next frame, or None once the stream is over; then every frame has been yielded.
    method Next() returns (frame: Option<Frame>)
      requires Valid()
      modifies this
      ensures Valid() && old(position) <= position
      ensures 0 <= Remaining() <= old(Remaining()) && (Remaining() == old(Remaining()) ==> old(finished))
      ensures frame.None? <==> old(finished)
      ensures frame.None? ==> yielded == old(yielded) == UpstreamFrames(lines, interrupted, decode, relay)
      ensures frame.Some? ==> yielded == old(yielded) + [frame.value]
      ensures finished <==> old(finished) || frame == Some(Done)
    {
      hide UpstreamFrames, Body, LastUsage, EndAt, UsageIn, DecodedLine, EndsStream, SseData, FrameOf;
      if finished {
        return None;
      }
      while !failed && position < |lines|
        invariant Valid() && !finished && failed == old(failed) && old(position) <= position
        invariant yielded == old(yielded)
        decreases |lines| - position
      {
        var line := lines[position];
        if EndsStream(line) {
          Ending(lines, position, interrupted, decode, relay);
          finished, yielded := true, yielded + [Done];
          return Some(Done);
        }
        ReadLine(lines, position, decode, relay);
        position := position + 1;
        var json := DecodedLine(line, decode);
        NoUsageWithoutData(line, decode);
        if json.None? {
          continue;
        }
        var read := UsageIn(line, decode);
        if read.Some? {
          usage := read;
          if !relay {
            continue;
          }
        }
        frame := Some(FrameOf(SseData(line).value, json.value));
        yielded := yielded + [frame.value];
        return;
      }
      Ending(lines, position, interrupted, decode, relay);
      if interrupted && !failed {
        failed, yielded := true, yielded + [Error("upstream_disconnected")];
        return Some(Error("upstream_disconnected"));
      }
      finished, yielded := true, yielded + [Done];
      return Some(Done);
    }
  }

  // ----- What the frames carry, said of the lines alone -----

  // A data line: its data follows "data:" and, if there is one, a single space.
  ghost predicate Carries(line: string, data: string) {
    line == "data:" + " " + data || (line == "data:" + data && !(" " <= data))
  }

  ghost predicate EndsHere(lines: seq<string>, e: nat) {
    && e <= |lines|
    && (forall i :: 0 <= i < e ==> !Carries(lines[i], "[DONE]"))
    && (e < |lines| ==> Carries(lines[e], "[DONE]"))
  }

  // What a line decodes to, if it is a data line, not the end, and decodes.
  ghost predicate Reads(line: string, data: string, j: Json, decode: Decoder) {
    Carries(line, data) && data != "[DONE]" && decode(data) == Some(j)
  }

  // A chunk that has a usage and an empty list of choices.
  ghost predicate OnlyUsage(j: Json) {
    j.usage.Some? && j.choices == EmptyList
  }

  // The line is passed on: it reads, and if it is a usage chunk, these were asked for.
  ghost predicate Relays(line: string, data: string, j: Json, decode: Decoder, asked: bool) {
    Reads(line, data, j, decode) && (asked || !OnlyUsage(j))
  }

  // The frame carries the data whole; it shows the delta there is, and is unreadable exactly
  // if `choices` is true without an element 0.
  ghost predicate Holds(f: Frame, data: string, j: Json) {
    match j.choices
    case First(Some(d)) => f.Chunk? && f.rest == data && f.content == d.content && f.fragments == d.fragments
    case NotIndexable => f.Unreadable? && f.raw == data
    case _ => f.Other? && f.raw == data
  }

  // What a delta says, and the fragments it sends.
  ghost function Delivers(j: Json): (string, seq<Fragment>) {
    match j.choices
    case First(Some(d)) => (if d.content.Some? then d.content.value else "", d.fragments)
    case _ => ("", [])
  }

  // What is passed on of a line, if anything is.
  ghost function Passed(line: string, decode: Decoder, asked: bool): Option<(string, Json)> {
    if exists data, j :: Relays(line, data, j, decode, asked)
    then var data, j :| Relays(line, data, j, decode, asked); Some((data, j))
    else None
  }

  // These are the frames of the lines that are passed on, one each and in order, and this is
  // their deltas' text and these their fragments, one after the other.
  ghost predicate Conveys(fs: seq<Frame>, text: string, pieces: seq<Fragment>, lines: seq<string>, decode: Decoder, asked: bool)
    decreases |lines|
  {
    if lines == [] then fs == [] && text == "" && pieces == []
    else
      var init, passed := lines[..|lines| - 1], Passed(lines[|lines| - 1], decode, asked);
      if passed.None? then Conveys(fs, text, pieces, init, decode, asked)
      else
        var (data, j) := passed.value;
        var (said, sent) := Delivers(j);
        && fs != [] && |said| <= |text| && |sent| <= |pieces|
        && Holds(fs[|fs| - 1], data, j)
        && text[|text| - |said|..] == said && pieces[|pieces| - |sent|..] == sent
        && Conveys(fs[..|fs| - 1], text[..|text| - |said|], pieces[..|pieces| - |sent|], init, decode, asked)
  }

  // Everything yielded: the frames of the lines before the end, and then the terminal frame,
  // behind an error frame if the connection broke before the upstream ended the stream. What
  // the guard reads from it is the text and the fragments of those lines.
  ghost predicate Streamed(fs: seq<Frame>, lines: seq<string>, interrupted: bool, decode: Decoder, asked: bool) {
    exists e: nat | EndsHere(lines, e) ::
      var closing := if interrupted && e == |lines| then [Error("upstream_disconnected"), Done] else [Done];
      && |closing| <= |fs| && fs[|fs| - |closing|..] == closing
      && Conveys(fs[..|fs| - |closing|], Said(fs), Pieces(fs), lines[..e], decode, asked)
  }

  // The usage is that of the last usage chunk before the end, if there is one.
  ghost predicate LastOnlyUsage(usage: Option<Usage>, lines: seq<string>, decode: Decoder) {
    exists e: nat | EndsHere(lines, e) ::
      if usage.None? then forall i, data, j | 0 <= i < e && Reads(lines[i], data, j, decode) :: !OnlyUsage(j)
      else
        exists i, data, j | 0 <= i < e && Reads(lines[i], data, j, decode) ::
          && OnlyUsage(j) && j.usage == usage
          && forall k, other, l | i < k < e && Reads(lines[k], other, l, decode) :: !OnlyUsage(l)
  }

  lemma DataMeans(line: string, data: string)
    ensures SseData(line) == Some(data) <==> Carries(line, data)
  {
    if Carries(line, data) {
      assert "data:" <= line;
      if line == "data:" + " " + data {
        assert line[5..] == " " + data;
        assert (" " + data)[1..] == data;
      } else {
        assert line[5..] == data;
      }
    }
    if SseData(line) == Some(data) {
      var value := line[5..];
      assert line == "data:" + value;
      if " " <= value {
        assert value == " " + data;
        assert "data:" + " " + data == "data:" + (" " + data);
      }
    }
  }

  lemma ReadsMeans(line: string, data: string, j: Json, decode: Decoder)
    ensures Reads(line, data, j, decode) <==> SseData(line) == Some(data) && DecodedLine(line, decode) == Some(j)
    ensures Reads(line, data, j, decode) ==> (UsageIn(line, decode) == if OnlyUsage(j) then j.usage else None)
  {
    DataMeans(line, data);
  }

  lemma NothingRead(line: string, decode: Decoder)
    ensures DecodedLine(line, decode).None? <==> forall data, j :: !Reads(line, data, j, decode)
  {
    if DecodedLine(line, decode).Some? {
      ReadsMeans(line, SseData(line).value, DecodedLine(line, decode).value, decode);
    } else {
      forall data, j
        ensures !Reads(line, data, j, decode)
      {
        ReadsMeans(line, data, j, decode);
      }
    }
  }

  lemma FrameHolds(data: string, j: Json)
    ensures Holds(FrameOf(data, j), data, j)
    ensures Said([FrameOf(data, j)]) == Delivers(j).0 && Pieces([FrameOf(data, j)]) == Delivers(j).1
  {
    assert [FrameOf(data, j)][..0] == [];
  }

  lemma SaidConcat(fs: seq<Frame>, gs: seq<Frame>)
    ensures Said(fs + gs) == Said(fs) + Said(gs) && Pieces(fs + gs) == Pieces(fs) + Pieces(gs)
  {
    hide Said, Pieces, TextOfAll, FragmentsOfAll;
    FramesSay(fs);
    FramesSay(gs);
    FramesSay(fs + gs);
    TextOfConcat(fs, gs);
    FragmentsOfConcat(fs, gs);
  }

  lemma {:induction false} FragmentsOfConcat(fs: seq<Frame>, gs: seq<Frame>)
    ensures FragmentsOfAll(fs + gs) == FragmentsOfAll(fs) + FragmentsOfAll(gs)
  {
    hide FragmentsOf;
    if gs == [] {
      assert fs + gs == fs && FragmentsOfAll(fs) + [] == FragmentsOfAll(fs);
    } else {
      var n := |gs| - 1;
      FragmentsOfConcat(fs, gs[..n]);
      assert (fs + gs)[..|fs + gs| - 1] == fs + gs[..n];
      assert (fs + gs)[|fs + gs| - 1] == gs[n];
    }
  }

  lemma FramesOfRelayed(line: string, data: string, j: Json, decode: Decoder, asked: bool)
    ensures Relays(line, data, j, decode, asked) ==> FramesOfLine(line, decode, asked) == [FrameOf(data, j)]
  {
    hide SseData;
    ReadsMeans(line, data, j, decode);
  }

  lemma FramesOfOther(line: string, decode: Decoder, asked: bool)
    requires forall data, j :: !Relays(line, data, j, decode, asked)
    ensures FramesOfLine(line, decode, asked) == []
  {
    hide SseData, FrameOf;
    NothingRead(line, decode);
    NoUsageWithoutData(line, decode);
    if DecodedLine(line, decode).Some? {
      var data, j := SseData(line).value, DecodedLine(line, decode).value;
      ReadsMeans(line, data, j, decode);
      assert !Relays(line, data, j, decode, asked);
    }
  }

  lemma ConveysOne(before: seq<Frame>, text: string, pieces: seq<Fragment>, f: Frame, data: string, j: Json,
                   init: seq<string>, line: string, decode: Decoder, asked: bool)
    requires Conveys(before, text, pieces, init, decode, asked)
    requires Passed(line, decode, asked) == Some((data, j)) && Holds(f, data, j)
    ensures Conveys(before + [f], text + Delivers(j).0, pieces + Delivers(j).1, init + [line], decode, asked)
  {
    hide Passed, Holds, Delivers;
    var fs, lines := before + [f], init + [line];
    var said, sent := Delivers(j).0, Delivers(j).1;
    assert fs[..|fs| - 1] == before && lines[..|lines| - 1] == init;
    assert (text + said)[..|text + said| - |said|] == text && (text + said)[|text + said| - |said|..] == said;
    assert (pieces + sent)[..|pieces + sent| - |sent|] == pieces && (pieces + sent)[|pieces + sent| - |sent|..] == sent;
  }

  lemma ConveysNone(before: seq<Frame>, text: string, pieces: seq<Fragment>,
                    init: seq<string>, line: string, decode: Decoder, asked: bool)
    requires Conveys(before, text, pieces, init, decode, asked)
    requires Passed(line, decode, asked).None?
    ensures Conveys(before, text, pieces, init + [line], decode, asked)
  {
    hide Passed, Holds, Delivers;
    var lines := init + [line];
    assert lines[..|lines| - 1] == init;
  }

  // What a line's frames are, by what is passed on of it.
  lemma LineMeans(line: string, decode: Decoder, asked: bool)
    ensures var passed, fs := Passed(line, decode, asked), FramesOfLine(line, decode, asked);
            if passed.None? then fs == []
            else
              && |fs| == 1 && Holds(fs[0], passed.value.0, passed.value.1)
              && Said(fs) == Delivers(passed.value.1).0 && Pieces(fs) == Delivers(passed.value.1).1
  {
    hide FramesOfLine, Relays, FrameOf, Holds, Said, Pieces, Delivers;
    var passed := Passed(line, decode, asked);
    if passed.Some? {
      FramesOfRelayed(line, passed.value.0, passed.value.1, decode, asked);
      FrameHolds(passed.value.0, passed.value.1);
    } else {
      FramesOfOther(line, decode, asked);
    }
  }

  lemma {:induction false} BodyConveys(lines: seq<string>, decode: Decoder, asked: bool)
    ensures var body := Body(lines, decode, asked); Conveys(body, Said(body), Pieces(body), lines, decode, asked)
  {
    if lines == [] {
      SaysNothing();
    } else {
      hide FramesOfLine, Passed, Holds, Conveys, Said, Pieces, Delivers;
      var init, line := lines[..|lines| - 1], lines[|lines| - 1];
      var before, passed := Body(init, decode, asked), Passed(line, decode, asked);
      BodyConveys(init, decode, asked);
      LineMeans(line, decode, asked);
      SaidConcat(before, FramesOfLine(line, decode, asked));
      assert lines == init + [line];
      if passed.Some? {
        var f := FramesOfLine(line, decode, asked)[0];
        assert FramesOfLine(line, decode, asked) == [f];
        ConveysOne(before, Said(before), Pieces(before), f, passed.value.0, passed.value.1, init, line, decode, asked);
      } else {
        ConveysNone(before, Said(before), Pieces(before), init, line, decode, asked);
        assert Body(lines, decode, asked) == before;
      }
    }
  }

  lemma SaysNothing()
    ensures Said([]) == "" && Pieces([]) == []
    ensures Said([Done]) == "" && Pieces([Done]) == []
    ensures Said([Error("upstream_disconnected"), Done]) == "" && Pieces([Error("upstream_disconnected"), Done]) == []
  {
    assert [Done][..0] == [];
    assert [Error("upstream_disconnected"), Done][..1] == [Error("upstream_disconnected")];
    assert [Error("upstream_disconnected")][..0] == [];
  }

  lemma EndMeans(lines: seq<string>)
    ensures EndsHere(lines, EndAt(lines))
  {
    hide Carries, SseData;
    EndAtFacts(lines);
    forall line
      ensures EndsStream(line) <==> Carries(line, "[DONE]")
    {
      DataMeans(line, "[DONE]");
    }
  }

  lemma UpstreamMeans(lines: seq<string>, interrupted: bool, decode: Decoder, asked: bool)
    ensures Streamed(UpstreamFrames(lines, interrupted, decode, asked), lines, interrupted, decode, asked)
  {
    hide Body, Conveys, Said, Pieces, EndsHere, EndAt;
    var e := EndAt(lines);
    EndMeans(lines);
    BodyConveys(lines[..e], decode, asked);
    var body := Body(lines[..e], decode, asked);
    var closing := if interrupted && e == |lines| then [Error("upstream_disconnected"), Done] else [Done];
    SaysNothing();
    SaidConcat(body, closing);
    var fs := body + closing;
    assert fs[|fs| - |closing|..] == closing && fs[..|fs| - |closing|] == body;
    assert Said(fs) == Said(body) && Pieces(fs) == Pieces(body);
  }

  lemma UsageMeans(lines: seq<string>, decode: Decoder)
    ensures LastOnlyUsage(LastUsage(lines[..EndAt(lines)], decode), lines, decode)
  {
    hide EndsHere, EndAt, Reads, OnlyUsage, UsageIn, LastUsage;
    var e := EndAt(lines);
    var cut := lines[..e];
    EndMeans(lines);
    UsageIsLastRead(cut, decode);
    forall i, data, j | 0 <= i < e && Reads(lines[i], data, j, decode)
      ensures UsageIn(cut[i], decode) == if OnlyUsage(j) then j.usage else None
    {
      ReadsMeans(lines[i], data, j, decode);
    }
    if LastUsage(cut, decode).Some? {
      var i :| 0 <= i < |cut| && UsageIn(cut[i], decode) == LastUsage(cut, decode)
        && forall k :: i < k < |cut| ==> UsageIn(cut[k], decode).None?;
      UsageIsRead(lines[i], decode);
      var data, j :| Reads(lines[i], data, j, decode);
      assert OnlyUsage(j) && j.usage == LastUsage(cut, decode);
      forall k, other, l | i < k < e && Reads(lines[k], other, l, decode)
        ensures !OnlyUsage(l)
      {
        OnlyUsageHasOne(l);
      }
    } else {
      forall i, data, j | 0 <= i < e && Reads(lines[i], data, j, decode)
        ensures !OnlyUsage(j)
      {
        OnlyUsageHasOne(j);
      }
    }
  }

  lemma OnlyUsageHasOne(j: Json)
    ensures OnlyUsage(j) ==> j.usage.Some?
  {
  }

  lemma UsageIsRead(line: string, decode: Decoder)
    requires UsageIn(line, decode).Some?
    ensures exists data, j :: Reads(line, data, j, decode)
  {
    NoUsageWithoutData(line, decode);
    ReadsMeans(line, SseData(line).value, DecodedLine(line, decode).value, decode);
  }

  // Pulled to the end, the stream is well ended; the usage is that of the last usage chunk
  // before the end, whether it was relayed or swallowed.
  method Drain(stream: UpstreamStream) returns (frames: seq<Frame>)
    requires stream.Valid() && stream.yielded == [] && !stream.finished
    modifies stream
    ensures frames == UpstreamFrames(stream.lines, stream.interrupted, stream.decode, stream.relay)
    ensures WellEnded(frames)
    ensures Streamed(frames, stream.lines, stream.interrupted, stream.decode, stream.relay)
    ensures stream.usage == LastUsage(stream.lines[..EndAt(stream.lines)], stream.decode)
    ensures LastOnlyUsage(stream.usage, stream.lines, stream.decode)
  {
    hide Streamed, LastOnlyUsage, UpstreamFrames, LastUsage, Body, EndAt, WellEnded, EndsStream;
    frames := [];
    UpstreamIsWellEnded(stream.lines, stream.interrupted, stream.decode, stream.relay);
    var next := stream.Next();
    while next.Some?
      invariant stream.Valid()
      invariant stream.yielded == frames + if next.Some? then [next.value] else []
      invariant next.None? ==> stream.finished && stream.yielded == UpstreamFrames(stream.lines, stream.interrupted, stream.decode, stream.relay)
      decreases stream.Remaining(), next.Some?
    {
      frames := frames + [next.value];
      next := stream.Next();
    }
    UpstreamMeans(stream.lines, stream.interrupted, stream.decode, stream.relay);
    UsageMeans(stream.lines, stream.decode);
  }

  lemma {:induction false} BodyHasNoDone(lines: seq<string>, decode: Decoder, relay: bool)
    ensures forall f <- Body(lines, decode, relay) :: !f.Done?
  {
    if lines != [] {
      BodyHasNoDone(lines[..|lines| - 1], decode, relay);
    }
  }

  lemma UpstreamIsWellEnded(lines: seq<string>, interrupted: bool, decode: Decoder, relay: bool)
    ensures WellEnded(UpstreamFrames(lines, interrupted, decode, relay))
  {
    var k := EndAt(lines);
    var body: seq<Frame>, closing: seq<Frame> := Body(lines[..k], decode, relay), Closing(k < |lines|, interrupted);
    BodyHasNoDone(lines[..k], decode, relay);
    forall i | 0 <= i < |body + closing| - 1
      ensures !(body + closing)[i].Done?
    {
      assert i < |body| ==> body[i] in body;
    }
  }

  // ----- Usage chunks -----

  function WithoutUsage(lines: seq<string>, decode: Decoder): seq<string> {
    if lines == [] then []
    else
      WithoutUsage(lines[..|lines| - 1], decode)
      + if UsageIn(lines[|lines| - 1], decode).Some? then [] else [lines[|lines| - 1]]
  }

  lemma {:induction false} EndWithoutUsage(lines: seq<string>, decode: Decoder)
    ensures var rest := WithoutUsage(lines, decode);
            && rest[..EndAt(rest)] == WithoutUsage(lines[..EndAt(lines)], decode)
            && (EndAt(rest) < |rest| <==> EndAt(lines) < |lines|)
  {
    if lines != [] {
      var n := |lines| - 1;
      EndWithoutUsage(lines[..n], decode);
      var rest := WithoutUsage(lines, decode);
      var before := WithoutUsage(lines[..n], decode);
      if UsageIn(lines[n], decode).Some? {
        assert rest == before;
      } else {
        assert rest[..|rest| - 1] == before;
      }
      if EndAt(lines) < |lines| {
        assert lines[..EndAt(lines)] == lines[..n][..EndAt(lines)];
        assert rest[..EndAt(rest)] == before[..EndAt(rest)];
      } else {
        assert lines[..EndAt(lines)] == lines;
        assert rest[..EndAt(rest)] == rest;
      }
    }
  }

  lemma {:induction false} BodyWithoutUsage(lines: seq<string>, decode: Decoder, relay: bool)
    ensures Body(WithoutUsage(lines, decode), decode, relay) == Body(lines, decode, false)
  {
    if lines != [] {
      var n := |lines| - 1;
      BodyWithoutUsage(lines[..n], decode, relay);
      var rest := WithoutUsage(lines, decode);
      if UsageIn(lines[n], decode).Some? {
        assert rest == WithoutUsage(lines[..n], decode);
      } else {
        assert rest[..|rest| - 1] == WithoutUsage(lines[..n], decode);
      }
    }
  }

  // Swallowing usage chunks yields exactly what an upstream that never sent them would have
  // made the gateway yield, whatever the client asked for.
  lemma SwallowedAsIfAbsent(lines: seq<string>, interrupted: bool, decode: Decoder, relay: bool)
    ensures UpstreamFrames(lines, interrupted, decode, false)
         == UpstreamFrames(WithoutUsage(lines, decode), interrupted, decode, relay)
  {
    EndWithoutUsage(lines, decode);
    BodyWithoutUsage(lines[..EndAt(lines)], decode, relay);
  }

  // The usage captured is that of the last usage chunk read; there is none exactly if no
  // such chunk was.
  lemma {:induction false} UsageIsLastRead(lines: seq<string>, decode: Decoder)
    ensures LastUsage(lines, decode).None? <==> forall i :: 0 <= i < |lines| ==> UsageIn(lines[i], decode).None?
    ensures LastUsage(lines, decode).Some? ==>
              exists i :: 0 <= i < |lines| && UsageIn(lines[i], decode) == LastUsage(lines, decode)
                && forall j :: i < j < |lines| ==> UsageIn(lines[j], decode).None?
  {
    hide UsageIn;
    if lines != [] && UsageIn(lines[|lines| - 1], decode).None? {
      var n := |lines| - 1;
      UsageIsLastRead(lines[..n], decode);
      if LastUsage(lines, decode).Some? {
        var i :| 0 <= i < n && UsageIn(lines[..n][i], decode) == LastUsage(lines, decode)
                 && forall j :: i < j < n ==> UsageIn(lines[..n][j], decode).None?;
        assert UsageIn(lines[i], decode) == LastUsage(lines, decode);
        assert forall j :: i < j < n ==> lines[j] == lines[..n][j];
      } else {
        assert forall j :: 0 <= j < n ==> lines[j] == lines[..n][j];
      }
    }
  }

  // A client that leaves early has received a prefix of what it would have received.
  lemma {:induction false} BodyGrows(lines: seq<string>, j: nat, k: nat, decode: Decoder, relay: bool)
    requires j <= k <= |lines|
    ensures Body(lines[..j], decode, relay) <= Body(lines[..k], decode, relay)
  {
    if j < k {
      BodyGrows(lines, j, k - 1, decode, relay);
      assert lines[..k][..k - 1] == lines[..k - 1];
    }
  }

  lemma YieldedIsPrefix(stream: UpstreamStream)
    requires stream.Valid()
    ensures stream.yielded <= UpstreamFrames(stream.lines, stream.interrupted, stream.decode, stream.relay)
  {
    if !stream.finished {
      ReadingPosition(stream.lines, stream.position);
      BodyGrows(stream.lines, stream.position, EndAt(stream.lines), stream.decode, stream.relay);
    }
  }

  // ----- Opening the upstream stream -----

  datatype Attempt = Retryable | Broken(code: string) | Opened(status: nat)

  predicate AllRetryable(attempts: nat -> Attempt, n: nat) {
    forall i: nat :: i < n ==> attempts(i).Retryable?
  }

  // Tries once, and once more for each retry allowed while an attempt can be retried.
  method OpenStreamWithRetries(attempts: nat -> Attempt, maxRetries: int) returns (last: Attempt, tried: nat)
    ensures 1 <= tried && (tried == 1 || tried - 1 <= maxRetries)
    ensures last == attempts(tried - 1) && AllRetryable(attempts, tried - 1)
    ensures last.Retryable? ==> tried == 1 + if maxRetries < 0 then 0 else maxRetries
  {
    var attempt := 0;
    while true
      invariant attempt == 0 || attempt <= maxRetries
      invariant AllRetryable(attempts, attempt)
      decreases maxRetries - attempt
    {
      last := attempts(attempt);
      if !last.Retryable? {
        return last, attempt + 1;
      }
      attempt := attempt + 1;
      if attempt > maxRetries {
        return last, attempt;
      }
    }
  }

  // Some attempt within the limit opened a stream, and all before it could be retried.
  predicate Opens(attempts: nat -> Attempt, maxRetries: int, i: nat) {
    (i == 0 || i <= maxRetries) && AllRetryable(attempts, i) && attempts(i).Opened? && attempts(i).status < 400
  }

  method StreamChatCompletion(attempts: nat -> Attempt, maxRetries: int, lines: seq<string>, interrupted: bool,
                              decode: Decoder, relay: bool)
    returns (run: Run, usage: Option<Usage>)
    ensures Disciplined(run)
    ensures run.Yielded? <==> exists i :: Opens(attempts, maxRetries, i)
    ensures AllRetryable(attempts, 1 + if maxRetries < 0 then 0 else maxRetries) ==> run == Raised("upstream_unavailable")
    ensures run.Yielded? ==> run.frames == UpstreamFrames(lines, interrupted, decode, relay)
    ensures run.Yielded? ==> Streamed(run.frames, lines, interrupted, decode, relay) && LastOnlyUsage(usage, lines, decode)
    ensures usage == if run.Yielded? then LastUsage(lines[..EndAt(lines)], decode) else None
  {
    var last, tried := OpenStreamWithRetries(attempts, maxRetries);
    if last.Opened? && last.status < 400 {
      assert Opens(attempts, maxRetries, tried - 1);
      var stream := new UpstreamStream(lines, interrupted, decode, relay);
      var frames := Drain(stream);
      return Yielded(frames), stream.usage;
    }
    assert forall i :: Opens(attempts, maxRetries, i) ==> i == tried - 1;
    match last {
      case Retryable => return Raised("upstream_unavailable"), None;
      case Broken(code) => return Raised(code), None;
      case Opened(_) => return Raised("upstream_error"), None;
    }
  }

  // ----- The guardrails backend -----

  // A token of the answer, or the error the backend reports in band.
  datatype Token = Text(text: string) | Failure(code: string)

  datatype Rails =
    | WithOutputRails(answer: Result<string, string>)
    | InputRailsOnly(tokens: seq<Token>, interrupted: bool)

  function FailureAt(tokens: seq<Token>): (r: nat)
    ensures r <= |tokens|
    ensures forall i :: 0 <= i < r ==> tokens[i].Text?
    ensures r < |tokens| ==> tokens[r].Failure?
  {
    if tokens == [] || tokens[0].Failure? then 0 else 1 + FailureAt(tokens[1..])
  }

  function TextChunk(text: string): Frame {
    Chunk(Some(text), [], "")
  }

  function TextChunks(tokens: seq<Token>): (r: seq<Frame>)
    requires forall t <- tokens :: t.Text?
    ensures |r| == |tokens|
  {
    seq(|tokens|, i requires 0 <= i < |tokens| => assert tokens[i] in tokens; TextChunk(tokens[i].text))
  }

  function RailsRun(rails: Rails): Run {
    match rails
    case WithOutputRails(Failure(_)) => Raised("guardrails_generation_failed")
    case WithOutputRails(Success(answer)) => Yielded([TextChunk(answer), Stop, Done])
    case InputRailsOnly(tokens, interrupted) =>
      if tokens == [] then if interrupted then Raised("internal_error") else Yielded([Stop, Done])
      else
        var k := FailureAt(tokens);
        Yielded(
          TextChunks(tokens[..k])
          + if k < |tokens| then [Error(tokens[k].code), Done]
            else if interrupted then [Error("guardrails_stream_interrupted"), Done]
            else [Stop, Done])
  }

  function TotalCount(prompts: seq<string>, count: string -> nat): nat {
    if prompts == [] then 0 else TotalCount(prompts[..|prompts| - 1], count) + count(prompts[|prompts| - 1])
  }

  predicate HasError(fs: seq<Frame>) {
    exists f <- fs :: f.Error?
  }

  // The estimated usage of a stream: of exactly the text that is yielded, and only if the
  // stream is not cut short by an error.
  function EstimatedUsage(run: Run, prompts: seq<string>, count: string -> nat): Option<Usage> {
    if run.Raised? || HasError(run.frames) then None
    else
      var p, c := TotalCount(prompts, count), count(TextOfAll(run.frames));
      Some(Usage(p, c, p + c))
  }

  lemma {:induction false} TextOfConcat(fs: seq<Frame>, gs: seq<Frame>)
    ensures TextOfAll(fs + gs) == TextOfAll(fs) + TextOfAll(gs)
  {
    hide TextOf;
    if gs == [] {
      assert fs + gs == fs && TextOfAll(fs) + "" == TextOfAll(fs);
    } else {
      var n := |gs| - 1;
      TextOfConcat(fs, gs[..n]);
      assert (fs + gs)[..|fs + gs| - 1] == fs + gs[..n];
      assert (fs + gs)[|fs + gs| - 1] == gs[n];
      assert TextOfAll(fs) + (TextOfAll(gs[..n]) + TextOf(gs[n])) == (TextOfAll(fs) + TextOfAll(gs[..n])) + TextOf(gs[n]);
    }
  }

  lemma ClosingHasNoText()
    ensures TextOfAll([Stop, Done]) == ""
    ensures forall text :: TextOfAll([TextChunk(text)]) == text
  {
    assert [Stop, Done][..1] == [Stop] && [Stop][..0] == [];
  }

  // Said of the tokens alone: one text frame for each up to the first failure, at k, and then
  // an error frame for it, or for the interruption, or a stop; and then the terminal frame.
  ghost predicate TokensMean(tokens: seq<Token>, interrupted: bool, fs: seq<Frame>, k: nat) {
    && k <= |tokens| && (forall i :: 0 <= i < k ==> tokens[i].Text?) && (k < |tokens| ==> tokens[k].Failure?)
    && |fs| == k + 2 && fs[|fs| - 1] == Done
    && (forall i :: 0 <= i < k ==> fs[i].Chunk? && fs[i].content == Some(tokens[i].text) && fs[i].fragments == [])
    && fs[|fs| - 2] == if k < |tokens| then Error(tokens[k].code)
                       else if interrupted then Error("guardrails_stream_interrupted")
                       else Stop
  }

  // With output rails the answer is one frame, or an error before any; without, an
  // interruption before the first token is an error before any frame too.
  ghost predicate RailsMean(rails: Rails, run: Run) {
    match rails
    case WithOutputRails(answer) =>
      if answer.Failure? then run.Raised?
      else
        && run.Yielded? && |run.frames| == 3 && run.frames[0].Chunk?
        && run.frames[0].content == Some(answer.value) && run.frames[0].fragments == []
        && run.frames[1..] == [Stop, Done]
    case InputRailsOnly(tokens, interrupted) =>
      if tokens == [] && interrupted then run.Raised? else run.Yielded? && exists k :: TokensMean(tokens, interrupted, run.frames, k)
  }

  lemma RailsMeaning(rails: Rails)
    ensures RailsMean(rails, RailsRun(rails))
  {
    if rails.InputRailsOnly? && RailsRun(rails).Yielded? {
      var tokens := rails.tokens;
      var k, fs := FailureAt(tokens), RailsRun(rails).frames;
      if tokens != [] {
        forall i | 0 <= i < k
          ensures fs[i] == TextChunk(tokens[i].text)
        {
          assert tokens[..k][i] == tokens[i];
        }
      }
      assert TokensMean(tokens, rails.interrupted, fs, k);
    }
  }

  // The prompts' counts, added up from the front.
  ghost function Summed(prompts: seq<string>, count: string -> nat): nat {
    if prompts == [] then 0 else count(prompts[0]) + Summed(prompts[1..], count)
  }

  // There is a usage exactly if nothing went wrong: the prompts' count, and that of the text.
  ghost predicate UsageMean(run: Run, prompts: seq<string>, count: string -> nat, usage: Option<Usage>) {
    && (usage.Some? <==> run.Yielded? && forall f <- run.frames :: !f.Error?)
    && (usage.Some? ==>
          && usage.value.prompt == Summed(prompts, count) && usage.value.completion == count(Said(run.frames))
          && usage.value.total == usage.value.prompt + usage.value.completion)
  }

  lemma UsageMeaning(run: Run, prompts: seq<string>, count: string -> nat)
    ensures UsageMean(run, prompts, count, EstimatedUsage(run, prompts, count))
  {
    hide TextOfAll, Said, Summed, TotalCount;
    if run.Yielded? {
      FramesSay(run.frames);
    }
    TotalIsSum(prompts, count);
  }

  lemma {:induction false} TotalIsSum(prompts: seq<string>, count: string -> nat)
    ensures TotalCount(prompts, count) == Summed(prompts, count)
  {
    if |prompts| > 0 {
      TotalFront(prompts, count);
      TotalIsSum(prompts[1..], count);
    }
  }

  lemma {:induction false} TotalFront(prompts: seq<string>, count: string -> nat)
    requires prompts != []
    ensures TotalCount(prompts, count) == count(prompts[0]) + TotalCount(prompts[1..], count)
  {
    var n := |prompts| - 1;
    if n > 0 {
      TotalFront(prompts[..n], count);
      assert prompts[..n][1..] == prompts[1..][..n - 1];
    }
  }

  method StreamResponse(rails: Rails, prompts: seq<string>, count: string -> nat) returns (run: Run, usage: Option<Usage>)
    ensures RailsMean(rails, run) && UsageMean(run, prompts, count, usage)
    ensures run == RailsRun(rails)
    ensures usage == EstimatedUsage(run, prompts, count)
  {
    RailsMeaning(rails);
    UsageMeaning(RailsRun(rails), prompts, count);
    hide TextOfAll, RailsMean, UsageMean;
    ClosingHasNoText();
    var promptTokens := TotalCount(prompts, count);
    match rails {
      case WithOutputRails(answer) =>
        if answer.Failure? {
          return Raised("guardrails_generation_failed"), None;
        }
        var frames := [TextChunk(answer.value), Stop, Done];
        TextOfConcat([TextChunk(answer.value)], [Stop, Done]);
        assert frames == [TextChunk(answer.value)] + [Stop, Done];
        assert TextOfAll(frames) == answer.value;
        var c := count(answer.value);
        return Yielded(frames), Some(Usage(promptTokens, c, promptTokens + c));
      case InputRailsOnly(tokens, interrupted) =>
        if tokens == [] {
          if interrupted {
            return Raised("internal_error"), None;
          }
          var c := count("");
          return Yielded([Stop, Done]), Some(Usage(promptTokens, c, promptTokens + c));
        }
        run, usage := StreamTokens(tokens, interrupted, promptTokens, count);
    }
  }

  method StreamTokens(tokens: seq<Token>, interrupted: bool, promptTokens: nat, count: string -> nat)
    returns (run: Run, usage: Option<Usage>)
    requires tokens != []
    ensures run == RailsRun(InputRailsOnly(tokens, interrupted))
    ensures usage.Some? <==> !HasError(run.frames)
    ensures usage.Some? ==>
              var c := count(TextOfAll(run.frames));
              usage.value == Usage(promptTokens, c, promptTokens + c)
  {
    hide TextOfAll;
    ClosingHasNoText();
    var accumulated, frames: seq<Frame> := "", [];
    EmptyText();
    for i := 0 to |tokens|
      invariant i <= FailureAt(tokens) && frames == TextChunks(tokens[..i])
      invariant accumulated == TextOfAll(frames)
    {
      if tokens[i].Failure? {
        var error := Error(tokens[i].code);
        assert (frames + [error, Done])[i] == error;
        return Yielded(frames + [error, Done]), None;
      }
      TextOfConcat(frames, [TextChunk(tokens[i].text)]);
      accumulated := accumulated + tokens[i].text;
      frames := frames + [TextChunk(tokens[i].text)];
    }
    if interrupted {
      var error := Error("guardrails_stream_interrupted");
      assert (frames + [error, Done])[|tokens|] == error;
      return Yielded(frames + [error, Done]), None;
    }
    TextOfConcat(frames, [Stop, Done]);
    assert TextOfAll(frames + [Stop, Done]) == accumulated;
    var c := count(accumulated);
    return Yielded(frames + [Stop, Done]), Some(Usage(promptTokens, c, promptTokens + c));
  }

  lemma EmptyText()
    ensures TextOfAll([]) == ""
  {
  }

  lemma RailsRunIsDisciplined(rails: Rails)
    ensures Disciplined(RailsRun(rails))
  {
  }

  // ----- Through the leak guard and the relay -----

  // What the client sees: an error before any frame, all frames, or some frames and then
  // nothing more because the guard raised behind them.
  datatype Delivery = Failed(code: string) | Complete(frames: seq<Frame>) | CutOff(frames: seq<Frame>)

  function Delivered(run: Run, cfg: Config, find: Finder): Delivery {
    match run
    case Raised(code) => Failed(code)
    case Yielded(fs) =>
      var guarded := GuardedStream(fs, cfg, find);
      if guarded.raised then if guarded.frames == [] then Failed("internal_error") else CutOff(guarded.frames)
      else Complete(if guarded.frames == [] then [Done] else guarded.frames)
  }

  // What the guard makes of a disciplined source.
  lemma GuardKeepsDiscipline(run: Run, cfg: Config, find: Finder)
    requires Disciplined(run)
    ensures var d := Delivered(run, cfg, find);
            var raises := run.Yielded? && cfg.enabled && FirstUnreadable(run.frames) < |run.frames|;
            && (d.CutOff? <==> raises && !RequiresBuffering(cfg) && FirstUnreadable(run.frames) > 0)
            && (d.Failed? <==> run.Raised? || (raises && (RequiresBuffering(cfg) || FirstUnreadable(run.frames) == 0)))
            && (d.CutOff? ==> d.frames == run.frames[..FirstUnreadable(run.frames)])
            && (d.Complete? ==> WellEnded(d.frames))
  {
    hide StreamMatches, Overall, Redacted, AssembledToolCalls, RequiresBuffering;
  }

  // The first line whose `choices` the guard cannot look into; the number of lines if none.
  function FirstUpsetting(lines: seq<string>, decode: Decoder): (r: nat)
    ensures r <= |lines| && (forall i :: 0 <= i < r ==> !Upsets(lines[i], decode))
    ensures r < |lines| ==> Upsets(lines[r], decode)
  {
    if lines == [] || Upsets(lines[0], decode) then 0 else 1 + FirstUpsetting(lines[1..], decode)
  }

  predicate Upsets(line: string, decode: Decoder) {
    var j := DecodedLine(line, decode);
    j.Some? && j.value.choices.NotIndexable?
  }

  lemma {:induction false} BodyReadable(lines: seq<string>, decode: Decoder, relay: bool)
    requires forall i :: 0 <= i < |lines| ==> !Upsets(lines[i], decode)
    ensures forall f <- Body(lines, decode, relay) :: !f.Unreadable?
  {
    if lines != [] {
      BodyReadable(lines[..|lines| - 1], decode, relay);
    }
  }

  // The frame the guard stumbles over is that of the first such line before the end.
  lemma StumblesAt(lines: seq<string>, interrupted: bool, decode: Decoder, relay: bool)
    ensures var k, fs := FirstUpsetting(lines, decode), UpstreamFrames(lines, interrupted, decode, relay);
            && (FirstUnreadable(fs) < |fs| <==> k < EndAt(lines))
            && (k < EndAt(lines) ==>
                  FirstUnreadable(fs) == |Body(lines[..k], decode, relay)| && fs[..FirstUnreadable(fs)] == Body(lines[..k], decode, relay))
  {
    hide Upsets, SseData, EndsStream, FramesOfLine, UsageIn, Body, EndAt;
    var k, end := FirstUpsetting(lines, decode), EndAt(lines);
    var body, closing := Body(lines[..end], decode, relay), Closing(end < |lines|, interrupted);
    var fs := body + closing;
    if k < end {
      BodyReadable(lines[..k], decode, relay);
      ReadLine(lines, k, decode, relay);
      UpsettingIsRelayed(lines[k], decode, relay);
      BodyGrows(lines, k + 1, end, decode, relay);
      UnreadableBehind(fs, Body(lines[..k], decode, relay), FramesOfLine(lines[k], decode, relay)[0]);
    } else {
      BodyReadable(lines[..end], decode, relay);
      forall i | 0 <= i < |fs|
        ensures !fs[i].Unreadable?
      {
        assert i < |body| ==> body[i] in body;
      }
    }
  }

  lemma UnreadableBehind(fs: seq<Frame>, before: seq<Frame>, f: Frame)
    requires before + [f] <= fs && f.Unreadable? && forall b <- before :: !b.Unreadable?
    ensures FirstUnreadable(fs) == |before| < |fs| && fs[..|before|] == before
  {
    hide FirstUnreadable;
    assert forall i :: 0 <= i < |before| ==> fs[i] == (before + [f])[i] == before[i] && before[i] in before;
    assert fs[|before|] == (before + [f])[|before|] == f;
  }

  lemma UpsettingIsRelayed(line: string, decode: Decoder, relay: bool)
    requires Upsets(line, decode)
    ensures |FramesOfLine(line, decode, relay)| == 1 && FramesOfLine(line, decode, relay)[0].Unreadable?
  {
  }

  // End to end, for every upstream, every interruption and every configuration: the client is
  // cut off, with frames of which none is the terminal one, exactly if the guard is on and
  // need not buffer, and a line it cannot look into comes before the end and behind a frame;
  // it then has the frames before that line. Otherwise it sees an error before any frame,
  // exactly if there is such a line and the guard buffers or no frame came before it, or else
  // frames of which exactly the last is the terminal one.
  lemma FrameDiscipline(lines: seq<string>, interrupted: bool, decode: Decoder, relay: bool, cfg: Config, find: Finder)
    ensures var d := Delivered(Yielded(UpstreamFrames(lines, interrupted, decode, relay)), cfg, find);
            var k := FirstUpsetting(lines, decode);
            var before := Body(lines[..k], decode, relay);
            var upset := cfg.enabled && k < EndAt(lines);
            && (d.CutOff? <==> upset && !RequiresBuffering(cfg) && before != [])
            && (d.Failed? <==> upset && (RequiresBuffering(cfg) || before == []))
            && (d.CutOff? ==> d.frames == before && forall f <- d.frames :: !f.Done?)
            && (d.Complete? ==> WellEnded(d.frames))
  {
    hide WellEnded, UpstreamFrames, Delivered, RequiresBuffering;
    UpstreamIsWellEnded(lines, interrupted, decode, relay);
    GuardKeepsDiscipline(Yielded(UpstreamFrames(lines, interrupted, decode, relay)), cfg, find);
    StumblesAt(lines, interrupted, decode, relay);
    BodyHasNoDone(lines[..FirstUpsetting(lines, decode)], decode, relay);
  }

  // The guardrails backend writes its own frames, so the guard never stumbles over one: the
  // client sees its error before any frame, or well-ended frames.
  lemma RailsDiscipline(rails: Rails, cfg: Config, find: Finder)
    ensures var d := Delivered(RailsRun(rails), cfg, find);
            (d.Failed? <==> RailsRun(rails).Raised?) && !d.CutOff? && (d.Complete? ==> WellEnded(d.frames))
  {
    hide Delivered, RequiresBuffering, WellEnded;
    RailsRunIsDisciplined(rails);
    GuardKeepsDiscipline(RailsRun(rails), cfg, find);
    if RailsRun(rails).Yielded? {
      assert forall f <- RailsRun(rails).frames :: !f.Unreadable?;
    }
  }

  // One that cuts a client off: an ordinary line, and then one whose `choices` is 5.
  lemma CutOffExample(interrupted: bool, relay: bool, find: Finder)
    ensures var lines := ["data: {}", "data: {\"choices\": 5}"];
            Delivered(Yielded(UpstreamFrames(lines, interrupted, ExampleJson, relay)), Config(true, map[], []), find)
            == CutOff([Other("{}")])
  {
    hide Delivered, UpstreamFrames, SseData, EndAt, EndsStream, FirstUpsetting, Upsets, Body, FramesOfLine, UsageIn, DecodedLine;
    var lines, cfg := ["data: {}", "data: {\"choices\": 5}"], Config(true, map[], []);
    ExampleLines(relay);
    ReadingPosition(lines, 2);
    FrameDiscipline(lines, interrupted, ExampleJson, relay, cfg, find);
    ReadLine(lines, 0, ExampleJson, relay);
    NoLines(lines, ExampleJson, relay);
    assert !Upsets(lines[0], ExampleJson) && Upsets(lines[1], ExampleJson);
    assert FirstUpsetting(lines, ExampleJson) == 1;
    assert EndAt(lines) == 2;
    assert Body(lines[..1], ExampleJson, relay) == [Other("{}")];
    assert !RequiresBuffering(cfg);
  }

  function ExampleJson(data: string): Option<Json> {
    Some(Json(None, if data == "{\"choices\": 5}" then NotIndexable else Absent))
  }

  lemma ExampleLines(relay: bool)
    ensures var ordinary, upsetting := "data: {}", "data: {\"choices\": 5}";
            && !EndsStream(ordinary) && !Upsets(ordinary, ExampleJson)
            && FramesOfLine(ordinary, ExampleJson, relay) == [Other("{}")]
            && !EndsStream(upsetting) && Upsets(upsetting, ExampleJson)
  {
    assert SseData("data: {}") == Some("{}");
    assert SseData("data: {\"choices\": 5}") == Some("{\"choices\": 5}");
    assert "{\"choices\": 5}"[0] != "[DONE]"[0] && "{}"[0] != "[DONE]"[0];
  }

  lemma NoLines(lines: seq<string>, decode: Decoder, relay: bool)
    ensures Body(lines[..0], decode, relay) == []
  {
  }

  // Swallowing usage chunks stays invisible behind the guard.
  lemma SwallowedBehindGuard(lines: seq<string>, interrupted: bool, decode: Decoder, relay: bool, cfg: Config, find: Finder)
    ensures Delivered(Yielded(UpstreamFrames(lines, interrupted, decode, false)), cfg, find)
         == Delivered(Yielded(UpstreamFrames(WithoutUsage(lines, decode), interrupted, decode, relay)), cfg, find)
  {
    SwallowedAsIfAbsent(lines, interrupted, decode, relay);
  }

  // A stream that broke off upstream, if it is delivered whole, still has its error frame
  // exactly if the guard neither redacts nor blocks it: the client otherwise sees a normal
  // stop, or the block.
  lemma InterruptionSurvivesUnlessRewritten(fs: seq<Frame>, cfg: Config, find: Finder)
    requires Error("upstream_disconnected") in fs
    ensures var d, action := Delivered(Yielded(fs), cfg, find), Overall(StreamMatches(fs, cfg, find));
            d.Complete? ==>
              (Error("upstream_disconnected") in d.frames <==> !RequiresBuffering(cfg) || !(action.Redact? || action.Block?))
  {
    hide StreamMatches, Overall, Redacted, AssembledToolCalls;
    assert "upstream_disconnected"[0] != "output_leak_detected"[0];
  }

  // Said of what the guard lets out: refused if the source or the guard raises before any
  // frame, and otherwise as much of it as is taken, an empty stream being the terminal frame.
  ghost predicate Relayed(run: Run, cfg: Config, find: Finder, taken: nat, refused: Option<string>, sent: seq<Frame>) {
    match run
    case Raised(code) => refused == Some(code)
    case Yielded(frames) =>
      exists out: seq<Frame>, raised: bool | StreamMeans(frames, cfg, find, out, raised) ::
        if raised && out == [] then refused.Some?
        else
          && refused.None?
          && (out == [] ==> sent == if taken == 0 then [] else [Done])
          && (out != [] ==> sent == out[..if taken <= |out| then taken else |out|])
  }

  // Relays what the guard lets through to a client that takes at most `taken` frames. An error
  // before the first frame refuses the request. Otherwise the client receives that much of what
  // is delivered, and the closing action runs once, whether the stream ends, breaks or is left;
  // only a response whose first frame is never taken is never begun, and never closed.
  method WrapAsStreamingResponse(run: Run, cfg: Config, find: Finder, taken: nat)
    returns (refused: Option<string>, sent: seq<Frame>, closes: nat)
    ensures Relayed(run, cfg, find, taken, refused, sent)
    ensures refused == if Delivered(run, cfg, find).Failed? then Some(Delivered(run, cfg, find).code) else None
    ensures refused.Some? ==> sent == [] && closes == 0
    ensures refused.None? ==>
              var all := Delivered(run, cfg, find).frames;
              && sent == all[..if taken <= |all| then taken else |all|]
              && closes == if taken == 0 then 0 else 1
  {
    hide GuardedStream;
    if run.Raised? {
      return Some(run.code), [], 0;
    }
    var guarded, raised := WithOutputLeakScan(run.frames, cfg, find);
    hide StreamMeans;
    if guarded == [] && raised {
      return Some("internal_error"), [], 0;
    }
    var first := if guarded == [] then Done else guarded[0];
    if taken == 0 {
      return None, [], 0;
    }
    ghost var all := Delivered(run, cfg, find).frames;
    sent := [first];
    while |sent| < |guarded| && |sent| < taken
      invariant 1 <= |sent| <= taken && |sent| <= |all| && sent == all[..|sent|]
    {
      sent := sent + [guarded[|sent|]];
    }
    return None, sent, 1;
  }
}
