// The output-leak guardrail's operations (app/guardrails/output_leak.py, app/api/routes/chat.py):
// loops proved to compute what LeakGuard defines, and so to do what LeakPolicy says.
module LeakScan {
  import opened Wrappers
  import Redaction
  import opened ToolCalls
  import opened LeakGuard
  import opened LeakPolicy

  method ScanTextLoop(text: string, cfg: Config, find: Finder) returns (ms: seq<Match>)
    ensures ReportsText(ms, text, cfg, find)
    ensures ms == ScanText(text, cfg, find)
  {
    ScanReports(text, cfg, find);
    hide ReportsText;
    if text == "" {
      return [];
    }
    var cs := find(text);
    ms := [];
    for i := 0 to |cs|
      invariant ms == Kept(Matches(cfg, cs[..i]), |text|)
    {
      assert Matches(cfg, cs[..i + 1])[..i] == Matches(cfg, cs[..i]);
      var m := MatchOf(cfg, cs[i]);
      if !Reportable(m, |text|) {
        continue;
      }
      if !HasKey(ms, m) {
        ms := ms + [m];
      }
    }
    assert cs[..|cs|] == cs;
  }

  // Scans and then redacts a complete response, choice by choice.
  method ApplyOutputLeakGuardrail(cs: seq<Choice>, cfg: Config, find: Finder) returns (r: Outcome)
    ensures ResponseMeans(cs, cfg, find, r)
    ensures r == GuardedResponse(cs, cfg, find)
  {
    GuardedResponseMeans(cs, cfg, find);
    hide Overall, ScanChoice, InContent, Redaction.Scan, GuardedChoice, ResponseMeans;
    if !cfg.enabled {
      return Released(cs);
    }
    var results: seq<seq<Match>>, overall := [], Action.Disabled;
    OverallIsStrictest([]);
    assert cs[..0] == [];
    for i := 0 to |cs|
      invariant |results| == i && forall j :: 0 <= j < i ==> results[j] == ScanChoice(cs[j], cfg, find)
      invariant overall == Overall(AllMatches(cs[..i], cfg, find))
    {
      assert cs[..i + 1][..i] == cs[..i];
      var ms := ScanChoice(cs[i], cfg, find);
      results := results + [ms];
      OverallConcat(AllMatches(cs[..i], cfg, find), ms);
      overall := Stricter(overall, Overall(ms));
    }
    assert cs[..|cs|] == cs;
    if overall.Block? {
      return Blocked;
    }
    if !overall.Redact? {
      return Released(cs);
    }
    var choices := RedactChoices(cs, results, cfg, find);
    return Released(choices);
  }

  method RedactChoices(cs: seq<Choice>, results: seq<seq<Match>>, cfg: Config, find: Finder) returns (choices: seq<Choice>)
    requires |results| == |cs| && forall j :: 0 <= j < |cs| ==> results[j] == ScanChoice(cs[j], cfg, find)
    ensures choices == seq(|cs|, i requires 0 <= i < |cs| => GuardedChoice(cs[i], cfg, find))
  {
    hide Overall, ScanChoice, InContent, Redaction.Scan;
    choices := cs;
    for i := 0 to |cs|
      invariant |choices| == |cs|
      invariant forall j :: 0 <= j < i ==> choices[j] == GuardedChoice(cs[j], cfg, find)
      invariant forall j :: i <= j < |cs| ==> choices[j] == cs[j]
    {
      if Overall(results[i]).Redact? && cs[i].content.Some? {
        ChoiceSpansInBounds(cs[i], cfg, find);
        var text := Redaction.RedactText(cs[i].content.value, SpansOf(InContent(results[i])));
        choices := choices[i := cs[i].(content := Some(text))];
      }
    }
  }

  // Guards a stream as it comes: live if nothing can require holding it back.
  method WithOutputLeakScan(frames: seq<Frame>, cfg: Config, find: Finder) returns (out: seq<Frame>, raised: bool)
    ensures StreamMeans(frames, cfg, find, out, raised)
    ensures Guarded(out, raised) == GuardedStream(frames, cfg, find)
  {
    GuardedStreamMeans(frames, cfg, find);
    hide StreamMeans;
    hide Overall, ScanText, ScanCalls, InContent, Redaction.Scan, AssembledToolCalls, TextOf, SlotArguments;
    if !cfg.enabled {
      return frames, false;
    }
    var calls := new Accumulator();
    if !RequiresBuffering(cfg) {
      out, raised := ForwardLive(frames, calls);
      assert GuardedStream(frames, cfg, find) == Guarded(out, raised);
      return;
    }
    var buffered, failed := Buffer(frames, calls);
    if failed {
      return [], true;
    }
    var text := TextOfFrames(buffered);
    var inCalls := ScanAccumulatedToolCalls(calls, cfg, find);
    ArrivedArgumentsAre(frames);
    var ms := ScanText(text, cfg, find) + inCalls;
    var action := Overall(ms);
    if action.Block? {
      return [Error("output_leak_detected"), Done], false;
    }
    if action.Redact? {
      StreamSpansInBounds(frames, cfg, find);
      var redacted := Redaction.RedactText(text, SpansOf(InContent(ms)));
      return [Collapsed(redacted, AssembledToolCalls(calls.slots)), Stop, Done], false;
    }
    return buffered, false;
  }

  // Each frame is looked into before it goes out: one that cannot be ends the stream.
  method ForwardLive(frames: seq<Frame>, calls: Accumulator) returns (out: seq<Frame>, raised: bool)
    requires calls.Valid() && calls.slots == map[] && calls.order == []
    modifies calls
    ensures raised <==> FirstUnreadable(frames) < |frames|
    ensures out == frames[..FirstUnreadable(frames)]
  {
    hide AddedAll, ArrivedAll, TextOf, FragmentsOf, Orders;
    out := [];
    var text := "";
    for i := 0 to |frames|
      invariant calls.Valid() && out == frames[..i] && i <= FirstUnreadable(frames)
    {
      if frames[i].Unreadable? {
        return out, true;
      }
      text := text + TextOf(frames[i]);
      calls.Accumulate(FragmentsOf(frames[i]));
      out := out + [frames[i]];
    }
    return out, false;
  }

  method Buffer(frames: seq<Frame>, calls: Accumulator) returns (buffered: seq<Frame>, raised: bool)
    requires calls.Valid() && calls.slots == map[] && calls.order == []
    modifies calls
    ensures raised <==> FirstUnreadable(frames) < |frames|
    ensures !raised ==> buffered == frames
    ensures !raised ==> calls.Valid() && calls.slots == SlotsOfAll(frames) && calls.order == OrderOfAll(frames)
  {
    hide AddedAll, ArrivedAll, FragmentsOf, Orders;
    buffered := [];
    for i := 0 to |frames|
      invariant buffered == frames[..i] && i <= FirstUnreadable(frames)
      invariant calls.Valid() && calls.slots == SlotsOfAll(frames[..i]) && calls.order == OrderOfAll(frames[..i])
    {
      buffered := buffered + [frames[i]];
      if frames[i].Unreadable? {
        return buffered, true;
      }
      assert frames[..i + 1][..i] == frames[..i];
      calls.Accumulate(FragmentsOf(frames[i]));
    }
    assert frames[..|frames|] == frames;
    return buffered, false;
  }

  method TextOfFrames(frames: seq<Frame>) returns (text: string)
    ensures text == TextOfAll(frames)
  {
    hide TextOf;
    text := "";
    for i := 0 to |frames|
      invariant text == TextOfAll(frames[..i])
    {
      assert frames[..i + 1][..i] == frames[..i];
      text := text + TextOf(frames[i]);
    }
    assert frames[..|frames|] == frames;
  }

  // Scans the calls in the order in which the accumulator keeps them.
  method ScanAccumulatedToolCalls(calls: Accumulator, cfg: Config, find: Finder) returns (ms: seq<Match>)
    requires calls.Valid()
    ensures forall i :: 0 <= i < |calls.order| ==> calls.order[i] in calls.slots
    ensures ReportsCalls(ms, calls.order, ArgumentsAt(calls.slots, calls.order), cfg, find)
    ensures ms == ScanCalls(calls.order, SlotArguments(calls.slots, calls.order), cfg, find)
  {
    hide ScanArguments;
    var order := calls.order;
    ghost var arguments := SlotArguments(calls.slots, order);
    ArgumentsAtKeys(calls.slots, order);
    CallsReport(order, arguments, cfg, find);
    hide ReportsCalls;
    ms := [];
    for i := 0 to |order|
      invariant ms == ScanCalls(order[..i], arguments[..i], cfg, find)
    {
      assert order[..i + 1][..i] == order[..i] && arguments[..i + 1][..i] == arguments[..i];
      ms := ms + ScanArguments(order[i], calls.slots[order[i]].arguments, cfg, find);
    }
    assert order[..|order|] == order && arguments[..|order|] == arguments;
  }
}
