// What the output-leak guardrail does, said of the configuration, the candidates and the
// characters alone (app/guardrails/output_leak.py, app/api/routes/chat.py): which responses
// and streams it blocks, what it redacts, and what it lets through as it is.
module LeakPolicy {
  import opened Wrappers
  import Redaction
  import opened ToolCalls
  import opened LeakGuard

  // ----- Which candidates count -----

  // The action the configuration gives a pattern: a category left out is flagged.
  ghost predicate Configured(cfg: Config, p: Pattern, a: Action) {
    match p
    case BuiltIn(c, _) => if c in cfg.categories then cfg.categories[c] == a else a == Flag
    case Custom(i) => if i < |cfg.custom| then cfg.custom[i].action == a else a == Disabled
  }

  // Reported under the same category and name.
  ghost predicate SameName(cfg: Config, p: Pattern, q: Pattern) {
    match (p, q)
    case (BuiltIn(c, m), BuiltIn(d, n)) => c == d && m == n
    case (Custom(i), Custom(j)) => i < |cfg.custom| && j < |cfg.custom| && cfg.custom[i].name == cfg.custom[j].name
    case _ => false
  }

  // Within the text, and of a pattern that is not disabled.
  ghost predicate Counts(cfg: Config, c: Candidate, n: nat) {
    c.start <= c.end <= n && !Configured(cfg, c.pattern, Disabled)
  }

  // The k-th candidate counts, and none before it is of the same name and the same span.
  ghost predicate Heard(cfg: Config, cs: seq<Candidate>, n: nat, k: nat)
    requires k < |cs|
  {
    && Counts(cfg, cs[k], n)
    && forall j :: 0 <= j < k && Counts(cfg, cs[j], n) && cs[j].start == cs[k].start && cs[j].end == cs[k].end ==>
         !SameName(cfg, cs[j].pattern, cs[k].pattern)
  }

  // The text has a candidate that is heard and configured so.
  ghost predicate Wants(text: string, a: Action, cfg: Config, find: Finder) {
    text != "" && exists k | 0 <= k < |find(text)| :: Heard(cfg, find(text), |text|, k) && Configured(cfg, find(text)[k].pattern, a)
  }

  // As the arguments of a tool call, a text that wants redaction has to be blocked as well.
  ghost predicate WantsBlockInCall(arguments: string, cfg: Config, find: Finder) {
    Wants(arguments, Redact, cfg, find) || Wants(arguments, Block, cfg, find)
  }

  // ----- What is reported -----

  // The candidates heard among the first m, in their order.
  ghost function HeardOf(cfg: Config, cs: seq<Candidate>, n: nat, m: nat): seq<Candidate>
    requires m <= |cs|
  {
    if m == 0 then [] else HeardOf(cfg, cs, n, m - 1) + if Heard(cfg, cs, n, m - 1) then [cs[m - 1]] else []
  }

  ghost function HeardIn(text: string, cfg: Config, find: Finder): seq<Candidate> {
    if text == "" then [] else HeardOf(cfg, find(text), |text|, |find(text)|)
  }

  // With the index of the call each was heard in.
  ghost function HeardInCalls(indices: seq<int>, arguments: seq<string>, cfg: Config, find: Finder): seq<(int, Candidate)>
    requires |indices| == |arguments|
  {
    if indices == [] then []
    else
      var n := |indices| - 1;
      var heard := HeardIn(arguments[n], cfg, find);
      HeardInCalls(indices[..n], arguments[..n], cfg, find) + seq(|heard|, i requires 0 <= i < |heard| => (indices[n], heard[i]))
  }

  // The arguments the slots hold, key by key.
  ghost function ArgumentsAt(slots: Slots, keys: seq<int>): (r: seq<string>)
    requires forall i :: 0 <= i < |keys| ==> keys[i] in slots
    ensures |r| == |keys|
  {
    if keys == [] then [] else ArgumentsAt(slots, keys[..|keys| - 1]) + [slots[keys[|keys| - 1]].arguments]
  }

  lemma {:induction false} ArgumentsAtKeys(slots: Slots, keys: seq<int>)
    requires forall i :: 0 <= i < |keys| ==> keys[i] in slots
    ensures ArgumentsAt(slots, keys) == SlotArguments(slots, keys)
  {
    if keys != [] {
      ArgumentsAtKeys(slots, keys[..|keys| - 1]);
    }
  }

  // The match tells of the candidate, found in the content or in the call with this index.
  ghost predicate Reports(m: Match, c: Candidate, cfg: Config, call: Option<int>) {
    && m.start == c.start && m.end == c.end && m.toolCall == call
    && (match c.pattern
        case BuiltIn(category, name) => m.category == Some(category) && m.name == name
        case Custom(i) => m.category == None && (i < |cfg.custom| ==> m.name == cfg.custom[i].name))
    && (if call.Some? && Configured(cfg, c.pattern, Redact) then m.action.Block? else Configured(cfg, c.pattern, m.action))
  }

  ghost predicate ReportsText(ms: seq<Match>, text: string, cfg: Config, find: Finder) {
    var heard := HeardIn(text, cfg, find);
    |ms| == |heard| && forall i :: 0 <= i < |ms| ==> Reports(ms[i], heard[i], cfg, None)
  }

  ghost predicate ReportsCalls(ms: seq<Match>, indices: seq<int>, arguments: seq<string>, cfg: Config, find: Finder)
    requires |indices| == |arguments|
  {
    var heard := HeardInCalls(indices, arguments, cfg, find);
    |ms| == |heard| && forall i :: 0 <= i < |ms| ==> Reports(ms[i], heard[i].1, cfg, Some(heard[i].0))
  }

  // ----- What takes a redacted span's place -----

  ghost function InCapitals(s: string): string {
    seq(|s|, i requires 0 <= i < |s| => if 'a' <= s[i] <= 'z' then (s[i] as int - 32) as char else s[i])
  }

  ghost function Mark(cfg: Config, p: Pattern): string {
    match p
    case BuiltIn(Email, _) => "[EMAIL]"
    case BuiltIn(Phone, _) => "[PHONE]"
    case BuiltIn(Ssn, _) => "[SSN]"
    case BuiltIn(CreditCard, _) => "[CREDIT_CARD]"
    case BuiltIn(IpAddress, _) => "[IP_ADDRESS]"
    case BuiltIn(SecretToken, _) => "[SECRET]"
    case Custom(i) => "[" + InCapitals(if i < |cfg.custom| then cfg.custom[i].name else "") + "]"
  }

  // The spans of all candidates heard, whatever they are configured to, in their order.
  ghost function SpansIn(text: string, cfg: Config, find: Finder): seq<Redaction.Span> {
    var heard := HeardIn(text, cfg, find);
    seq(|heard|, i requires 0 <= i < |heard| => Redaction.Span(heard[i].start, heard[i].end, Mark(cfg, heard[i].pattern)))
  }

  ghost function RedactedText(text: string, cfg: Config, find: Finder): string {
    Redaction.Scan(text, SpansIn(text, cfg, find), 0)
  }

  // ----- Responses -----

  ghost predicate ChoiceWantsBlock(c: Choice, cfg: Config, find: Finder) {
    || (c.content.Some? && Wants(c.content.value, Block, cfg, find))
    || (c.toolCalls.Some? && exists call <- c.toolCalls.value :: WantsBlockInCall(call.arguments, cfg, find))
  }

  // Blocked exactly if the guard is on and some choice wants that; otherwise every choice goes
  // out, its content redacted exactly if the guard is on and the content wants that.
  ghost predicate ResponseMeans(cs: seq<Choice>, cfg: Config, find: Finder, r: Outcome) {
    if cfg.enabled && exists c <- cs :: ChoiceWantsBlock(c, cfg, find) then r == Blocked
    else
      && r.Released? && |r.choices| == |cs|
      && forall i :: 0 <= i < |cs| ==>
           r.choices[i] == if cfg.enabled && cs[i].content.Some? && Wants(cs[i].content.value, Redact, cfg, find)
                           then cs[i].(content := Some(RedactedText(cs[i].content.value, cfg, find)))
                           else cs[i]
  }

  // ----- Streams -----

  // All text the frames carry, and all pieces of tool calls, in order.
  ghost function Said(fs: seq<Frame>): string {
    if fs == [] then ""
    else
      Said(fs[..|fs| - 1])
      + match fs[|fs| - 1]
        case Chunk(Some(content), _, _) => content
        case Collapsed(text, _) => text
        case _ => ""
  }

  ghost function Pieces(fs: seq<Frame>): seq<Fragment> {
    if fs == [] then []
    else
      Pieces(fs[..|fs| - 1])
      + match fs[|fs| - 1]
        case Chunk(_, fragments, _) => fragments
        case _ => []
  }

  // The arguments of the call with this index.
  ghost function SaidInCall(fs: seq<Frame>, i: int): string {
    Joined(Own(Pieces(fs), i))
  }

  ghost predicate StreamWantsBlock(fs: seq<Frame>, cfg: Config, find: Finder) {
    || Wants(Said(fs), Block, cfg, find)
    || exists i | Own(Pieces(fs), i) != [] :: WantsBlockInCall(SaidInCall(fs, i), cfg, find)
  }

  // Something is configured that cannot be decided before the end.
  ghost predicate MustWait(cfg: Config) {
    exists p: Pattern :: Configured(cfg, p, Redact) || Configured(cfg, p, Block)
  }

  // A guard that is on raises at the first frame it cannot look into, having let out the
  // frames before it unless it has to wait. Otherwise the stream is blocked exactly if the
  // guard is on and the stream wants that; if not, collapsed into its redacted text and its
  // tool calls exactly if the guard is on and its text wants that; and else let through.
  ghost predicate StreamMeans(fs: seq<Frame>, cfg: Config, find: Finder, out: seq<Frame>, raised: bool) {
    && (raised <==> cfg.enabled && exists f <- fs :: f.Unreadable?)
    && (raised ==>
          exists n | 0 <= n < |fs| && fs[n].Unreadable? && (forall i :: 0 <= i < n ==> !fs[i].Unreadable?) ::
            out == if MustWait(cfg) then [] else fs[..n])
    && (!raised ==>
          if cfg.enabled && StreamWantsBlock(fs, cfg, find) then out == [Error("output_leak_detected"), Done]
          else if cfg.enabled && Wants(Said(fs), Redact, cfg, find) then
            && |out| == 3 && out[0].Collapsed? && out[1..] == [Stop, Done]
            && out[0].text == RedactedText(Said(fs), cfg, find)
            && Assembles(out[0].toolCalls, Pieces(fs))
          else out == fs)
  }

  // ----- That the guard does this: one text -----

  lemma SameKeyMeans(cfg: Config, c: Candidate, d: Candidate, n: nat)
    requires Counts(cfg, c, n) && Counts(cfg, d, n)
    ensures SameKey(MatchOf(cfg, c), MatchOf(cfg, d)) <==> c.start == d.start && c.end == d.end && SameName(cfg, c.pattern, d.pattern)
  {
  }

  lemma ReportableMeans(cfg: Config, c: Candidate, n: nat)
    ensures Reportable(MatchOf(cfg, c), n) <==> Counts(cfg, c, n)
    ensures forall a :: MatchOf(cfg, c).action == a <==> Configured(cfg, c.pattern, a)
  {
  }

  lemma HeardMeans(cfg: Config, cs: seq<Candidate>, n: nat, k: nat)
    requires k < |cs|
    ensures Heard(cfg, cs, n, k) <==> FirstOfKey(Matches(cfg, cs), n, k)
  {
    hide Counts, Reportable, SameKey, SameName, MatchOf;
    var found := Matches(cfg, cs);
    forall j | 0 <= j <= k
      ensures found[j] == MatchOf(cfg, cs[j])
      ensures Reportable(found[j], n) <==> Counts(cfg, cs[j], n)
    {
      ReportableMeans(cfg, cs[j], n);
    }
    forall j | 0 <= j <= k && Counts(cfg, cs[j], n) && Counts(cfg, cs[k], n)
      ensures SameKey(found[j], found[k]) <==> cs[j].start == cs[k].start && cs[j].end == cs[k].end && SameName(cfg, cs[j].pattern, cs[k].pattern)
    {
      SameKeyMeans(cfg, cs[j], cs[k], n);
    }
  }

  // What a scan asks for is what the text wants.
  lemma ScanWants(text: string, a: Action, cfg: Config, find: Finder)
    ensures Asks(ScanText(text, cfg, find), a) <==> Wants(text, a, cfg, find)
  {
    hide Heard, FirstOfKey, MatchOf, Configured, Kept;
    if text != "" {
      var cs, n := find(text), |text|;
      var found := Matches(cfg, cs);
      var ms := Kept(found, n);
      forall k | 0 <= k < |cs|
        ensures Heard(cfg, cs, n, k) <==> FirstOfKey(found, n, k)
        ensures found[k].action == a <==> Configured(cfg, cs[k].pattern, a)
      {
        HeardMeans(cfg, cs, n, k);
        ReportableMeans(cfg, cs[k], n);
      }
      if m :| m in ms && m.action == a {
        KeptAreFirstOfKey(found, n, m);
      }
      if k :| 0 <= k < |cs| && Heard(cfg, cs, n, k) && Configured(cfg, cs[k].pattern, a) {
        KeptAreFirstOfKey(found, n, found[k]);
        assert found[k] in ms;
      }
    }
  }

  // As a tool call's arguments it asks for a block instead of a redaction.
  lemma CallWants(text: string, cfg: Config, find: Finder)
    ensures AsksAsArguments(text, Block, cfg, find) <==> WantsBlockInCall(text, cfg, find)
    ensures !AsksAsArguments(text, Redact, cfg, find)
  {
    hide ScanText, Wants;
    ScanWants(text, Redact, cfg, find);
    ScanWants(text, Block, cfg, find);
  }

  lemma TokenMeans(cfg: Config, c: Candidate)
    ensures Token(MatchOf(cfg, c)) == Mark(cfg, c.pattern)
  {
    if c.pattern.Custom? {
      var name := if c.pattern.position < |cfg.custom| then cfg.custom[c.pattern.position].name else "";
      assert forall i :: 0 <= i < |name| ==> UpperChar(name[i]) == InCapitals(name)[i];
      assert seq(|name|, i requires 0 <= i < |name| => UpperChar(name[i])) == InCapitals(name);
    }
  }

  // What a scan reports are the candidates heard, in their order.
  lemma {:induction false} KeptAreHeard(cfg: Config, cs: seq<Candidate>, n: nat, m: nat)
    requires m <= |cs|
    ensures Kept(Matches(cfg, cs)[..m], n) == Matches(cfg, HeardOf(cfg, cs, n, m))
  {
    hide Heard, Reportable, HasKey, MatchOf, FirstOfKey;
    if m > 0 {
      var found := Matches(cfg, cs);
      KeptAreHeard(cfg, cs, n, m - 1);
      assert found[..m][..m - 1] == found[..m - 1];
      FirstOfKeyLast(found[..m], n);
      FirstOfKeyLocal(found, n, m - 1, m);
      HeardMeans(cfg, cs, n, m - 1);
    }
  }

  lemma ScanIsHeard(text: string, cfg: Config, find: Finder)
    ensures ScanText(text, cfg, find) == Matches(cfg, HeardIn(text, cfg, find))
  {
    if text != "" {
      hide HeardOf, Kept, MatchOf;
      var cs := find(text);
      KeptAreHeard(cfg, cs, |text|, |cs|);
      assert Matches(cfg, cs)[..|cs|] == Matches(cfg, cs);
    }
  }

  lemma SpansMean(text: string, cfg: Config, find: Finder)
    ensures SpansOf(ScanText(text, cfg, find)) == SpansIn(text, cfg, find)
  {
    hide HeardIn, ScanText, Token, Mark, MatchOf;
    ScanIsHeard(text, cfg, find);
    var heard := HeardIn(text, cfg, find);
    forall i | 0 <= i < |heard|
      ensures SpansOf(Matches(cfg, heard))[i] == SpansIn(text, cfg, find)[i]
    {
      TokenMeans(cfg, heard[i]);
      SpanOfMatch(cfg, heard[i]);
    }
  }

  lemma SpanOfMatch(cfg: Config, c: Candidate)
    ensures MatchOf(cfg, c).start == c.start && MatchOf(cfg, c).end == c.end
  {
  }

  // A scan reports what is heard in the text; a scan of calls, what is heard in their arguments.
  lemma ScanReports(text: string, cfg: Config, find: Finder)
    ensures ReportsText(ScanText(text, cfg, find), text, cfg, find)
  {
    hide HeardIn, ScanText;
    ScanIsHeard(text, cfg, find);
  }

  lemma ArgumentsReport(index: int, arguments: string, cfg: Config, find: Finder)
    ensures var ms, heard := ScanArguments(index, arguments, cfg, find), HeardIn(arguments, cfg, find);
            |ms| == |heard| && forall i :: 0 <= i < |ms| ==> Reports(ms[i], heard[i], cfg, Some(index))
  {
    hide HeardIn, ScanText;
    ScanIsHeard(arguments, cfg, find);
  }

  lemma {:induction false} CallsReport(indices: seq<int>, arguments: seq<string>, cfg: Config, find: Finder)
    requires |indices| == |arguments|
    ensures ReportsCalls(ScanCalls(indices, arguments, cfg, find), indices, arguments, cfg, find)
  {
    hide HeardIn, ScanArguments, Reports;
    if indices != [] {
      var n := |indices| - 1;
      CallsReport(indices[..n], arguments[..n], cfg, find);
      ArgumentsReport(indices[n], arguments[n], cfg, find);
    }
  }

  // ----- ... the strictest action -----

  lemma StrictestMeans(ms: seq<Match>)
    ensures Overall(ms).Block? <==> Asks(ms, Block)
    ensures Overall(ms).Redact? <==> Asks(ms, Redact) && !Asks(ms, Block)
  {
    hide Overall;
    OverallIsStrictest(ms);
  }

  lemma ContentAndCallsAsk(text: string, indices: seq<int>, arguments: seq<string>, cfg: Config, find: Finder)
    requires |indices| == |arguments|
    ensures var ms := ScanText(text, cfg, find) + ScanCalls(indices, arguments, cfg, find);
            && (Asks(ms, Block) <==> Wants(text, Block, cfg, find) || exists t <- arguments :: WantsBlockInCall(t, cfg, find))
            && (Asks(ms, Redact) <==> Wants(text, Redact, cfg, find))
  {
    hide ScanText, ScanCalls, Wants, Asks, AsksAsArguments, WantsBlockInCall;
    forall a
      ensures Asks(ScanText(text, cfg, find) + ScanCalls(indices, arguments, cfg, find), a)
         <==> Wants(text, a, cfg, find) || exists t <- arguments :: AsksAsArguments(t, a, cfg, find)
    {
      AsksConcat(ScanText(text, cfg, find), ScanCalls(indices, arguments, cfg, find), a);
      ScanWants(text, a, cfg, find);
      CallsAsk(indices, arguments, a, cfg, find);
    }
    forall t | t in arguments
      ensures AsksAsArguments(t, Block, cfg, find) <==> WantsBlockInCall(t, cfg, find)
      ensures !AsksAsArguments(t, Redact, cfg, find)
    {
      CallWants(t, cfg, find);
    }
  }

  // ----- ... a response -----

  lemma ChoiceAsks(c: Choice, cfg: Config, find: Finder)
    ensures Asks(ScanChoice(c, cfg, find), Block) <==> ChoiceWantsBlock(c, cfg, find)
    ensures Asks(ScanChoice(c, cfg, find), Redact) <==> c.content.Some? && Wants(c.content.value, Redact, cfg, find)
  {
    hide ScanText, ScanCalls, Wants, WantsBlockInCall;
    var text := if c.content.Some? then c.content.value else "";
    var arguments: seq<string> := if c.toolCalls.Some? then ArgumentsOf(c.toolCalls.value) else [];
    ContentAndCallsAsk(text, Positions(|arguments|), arguments, cfg, find);
    NothingInNothing(cfg, find);
    assert Positions(0) == [];
    assert ScanChoice(c, cfg, find) == ScanText(text, cfg, find) + ScanCalls(Positions(|arguments|), arguments, cfg, find);
    if c.toolCalls.Some? {
      ArgumentsAre(c.toolCalls.value);
    }
  }

  lemma NothingInNothing(cfg: Config, find: Finder)
    ensures ScanText("", cfg, find) == [] && ScanCalls([], [], cfg, find) == []
    ensures forall a :: !Wants("", a, cfg, find)
  {
  }

  lemma ArgumentsAre(calls: seq<ToolCall>)
    ensures forall t :: t in ArgumentsOf(calls) <==> exists call <- calls :: call.arguments == t
  {
    forall t
      ensures t in ArgumentsOf(calls) ==> exists call <- calls :: call.arguments == t
      ensures (exists call <- calls :: call.arguments == t) ==> t in ArgumentsOf(calls)
    {
      if t in ArgumentsOf(calls) {
        var k :| 0 <= k < |calls| && ArgumentsOf(calls)[k] == t;
        assert calls[k] in calls;
      }
      if call :| call in calls && call.arguments == t {
        var k :| 0 <= k < |calls| && calls[k] == call;
        assert ArgumentsOf(calls)[k] == t;
      }
    }
  }

  lemma {:induction false} AllAsk(cs: seq<Choice>, a: Action, cfg: Config, find: Finder)
    ensures Asks(AllMatches(cs, cfg, find), a) <==> exists c <- cs :: Asks(ScanChoice(c, cfg, find), a)
  {
    hide ScanChoice, Asks;
    if cs == [] {
      NoneAsked(a);
    } else {
      var n := |cs| - 1;
      AllAsk(cs[..n], a, cfg, find);
      AsksConcat(AllMatches(cs[..n], cfg, find), ScanChoice(cs[n], cfg, find), a);
      assert cs == cs[..n] + [cs[n]];
    }
  }

  lemma NoneAsked(a: Action)
    ensures !Asks([], a)
  {
  }

  lemma ChoiceRedaction(c: Choice, cfg: Config, find: Finder)
    requires c.content.Some?
    ensures Redacted(c.content.value, ScanChoice(c, cfg, find)) == RedactedText(c.content.value, cfg, find)
  {
    hide Redaction.Scan, ScanText, ScanCalls, SpansIn, SpansOf, InContent;
    SpansMean(c.content.value, cfg, find);
    if c.toolCalls.Some? {
      ContentPart(c.content.value, Positions(|c.toolCalls.value|), ArgumentsOf(c.toolCalls.value), cfg, find);
    } else {
      ContentPart(c.content.value, [], [], cfg, find);
      NothingInNothing(cfg, find);
    }
  }

  lemma GuardedResponseMeans(cs: seq<Choice>, cfg: Config, find: Finder)
    ensures ResponseMeans(cs, cfg, find, GuardedResponse(cs, cfg, find))
  {
    hide AllMatches, ScanChoice, Overall, Asks, ChoiceWantsBlock, Wants, Redacted, RedactedText;
    forall a
      ensures Asks(AllMatches(cs, cfg, find), a) <==> exists c <- cs :: Asks(ScanChoice(c, cfg, find), a)
    {
      AllAsk(cs, a, cfg, find);
    }
    StrictestMeans(AllMatches(cs, cfg, find));
    forall c | c in cs
      ensures Asks(ScanChoice(c, cfg, find), Block) <==> ChoiceWantsBlock(c, cfg, find)
      ensures Asks(ScanChoice(c, cfg, find), Redact) <==> c.content.Some? && Wants(c.content.value, Redact, cfg, find)
      ensures Overall(ScanChoice(c, cfg, find)).Redact? <==> Asks(ScanChoice(c, cfg, find), Redact) && !Asks(ScanChoice(c, cfg, find), Block)
      ensures c.content.Some? ==> Redacted(c.content.value, ScanChoice(c, cfg, find)) == RedactedText(c.content.value, cfg, find)
    {
      ChoiceAsks(c, cfg, find);
      StrictestMeans(ScanChoice(c, cfg, find));
      if c.content.Some? {
        ChoiceRedaction(c, cfg, find);
      }
    }
    forall i | 0 <= i < |cs|
      ensures cs[i] in cs
    {
    }
  }

  // ----- ... and a stream -----

  lemma {:induction false} FramesSay(fs: seq<Frame>)
    ensures TextOfAll(fs) == Said(fs)
    ensures FragmentsOfAll(fs) == Pieces(fs)
  {
    if fs != [] {
      FramesSay(fs[..|fs| - 1]);
      assert TextOf(fs[|fs| - 1]) == match fs[|fs| - 1]
                                     case Chunk(Some(content), _, _) => content
                                     case Collapsed(text, _) => text
                                     case _ => "";
    }
  }

  lemma WaitingMeans(cfg: Config)
    ensures cfg.enabled ==> (RequiresBuffering(cfg) <==> MustWait(cfg))
  {
    if RequiresBuffering(cfg) {
      if c :| c in cfg.categories && (cfg.categories[c].Redact? || cfg.categories[c].Block?) {
        assert Configured(cfg, BuiltIn(c, ""), cfg.categories[c]);
      } else {
        var p :| p in cfg.custom && (p.action.Redact? || p.action.Block?);
        var i :| 0 <= i < |cfg.custom| && cfg.custom[i] == p;
        assert Configured(cfg, Custom(i), p.action);
      }
    }
    if p: Pattern :| Configured(cfg, p, Redact) || Configured(cfg, p, Block) {
      match p
      case BuiltIn(c, _) =>
      case Custom(i) => assert cfg.custom[i] in cfg.custom;
    }
  }

  // The arguments scanned are those of the calls there are.
  lemma ArrivedSay(fs: seq<Frame>)
    ensures forall t :: t in ArrivedArguments(fs) <==> exists i | Own(Pieces(fs), i) != [] :: SaidInCall(fs, i) == t
  {
    hide AddedAll, Own, Joined, Collected, OrderOfAll, SlotsOfAll;
    var slots, order := SlotsOfAll(fs), OrderOfAll(fs);
    ArrivedArgumentsAre(fs);
    SlotsOfFragments(fs);
    FramesSay(fs);
    SlotsAreOwn(Pieces(fs));
    forall t
      ensures t in ArrivedArguments(fs) ==> exists i | Own(Pieces(fs), i) != [] :: SaidInCall(fs, i) == t
      ensures (exists i | Own(Pieces(fs), i) != [] :: SaidInCall(fs, i) == t) ==> t in ArrivedArguments(fs)
    {
      if t in ArrivedArguments(fs) {
        var k :| 0 <= k < |order| && ArrivedArguments(fs)[k] == t;
        CollectedSays(Own(Pieces(fs), order[k]));
        assert SaidInCall(fs, order[k]) == t;
      }
      if i :| Own(Pieces(fs), i) != [] && SaidInCall(fs, i) == t {
        CollectedSays(Own(Pieces(fs), i));
        assert i in slots && i in order;
        var k :| 0 <= k < |order| && order[k] == i;
        assert ArrivedArguments(fs)[k] == t;
      }
    }
  }

  lemma StreamAsks(fs: seq<Frame>, cfg: Config, find: Finder)
    ensures Overall(StreamMatches(fs, cfg, find)).Block? <==> StreamWantsBlock(fs, cfg, find)
    ensures Overall(StreamMatches(fs, cfg, find)).Redact? <==> Wants(Said(fs), Redact, cfg, find) && !StreamWantsBlock(fs, cfg, find)
  {
    hide Overall, Asks, ScanText, ScanCalls, Wants, WantsBlockInCall, OrderOfAll, ArrivedArguments, SaidInCall, Own, Pieces, Said, TextOfAll;
    ContentAndCallsAsk(TextOfAll(fs), OrderOfAll(fs), ArrivedArguments(fs), cfg, find);
    StrictestMeans(StreamMatches(fs, cfg, find));
    FramesSay(fs);
    ArrivedSay(fs);
  }

  lemma GuardedStreamMeans(fs: seq<Frame>, cfg: Config, find: Finder)
    ensures StreamMeans(fs, cfg, find, GuardedStream(fs, cfg, find).frames, GuardedStream(fs, cfg, find).raised)
  {
    hide StreamMatches, Overall, StreamWantsBlock, Wants, Redacted, RedactedText, Assembles, AssembledToolCalls,
      RequiresBuffering, MustWait, Said, Pieces, TextOfAll, SlotsOfAll, FirstUnreadable;
    StreamAsks(fs, cfg, find);
    WaitingMeans(cfg);
    if cfg.enabled && !RequiresBuffering(cfg) {
      LiveIsSound(fs, cfg, find);
    }
    var g := GuardedStream(fs, cfg, find);
    if g.raised {
      assert fs[FirstUnreadable(fs)] in fs;
    } else if cfg.enabled {
      forall f | f in fs
        ensures !f.Unreadable?
      {
        var i :| 0 <= i < |fs| && fs[i] == f;
      }
      StreamRedaction(fs, cfg, find);
      CallsMean(fs);
    }
  }

  lemma StreamRedaction(fs: seq<Frame>, cfg: Config, find: Finder)
    ensures Redacted(TextOfAll(fs), StreamMatches(fs, cfg, find)) == RedactedText(Said(fs), cfg, find)
  {
    hide Redaction.Scan, StreamMatches, ScanText, SpansIn, SpansOf, InContent, TextOfAll, Said;
    StreamSpansInBounds(fs, cfg, find);
    FramesSay(fs);
    SpansMean(Said(fs), cfg, find);
  }

  lemma CallsMean(fs: seq<Frame>)
    ensures Assembles(AssembledToolCalls(SlotsOfAll(fs)), Pieces(fs))
  {
    hide AddedAll, Assembles, AssembledToolCalls, SlotsOfAll, Pieces, FragmentsOfAll;
    SlotsOfFragments(fs);
    FramesSay(fs);
    AssembledMeans(Pieces(fs));
  }

  // ----- Names that are told apart -----

  // If no two custom patterns share a name, no candidate is ever silenced by one that is
  // configured differently: a text wants an action exactly if it has any candidate, within
  // it and of a pattern that is not disabled, that is configured to it.
  lemma WantsWithDistinctNames(text: string, a: Action, cfg: Config, find: Finder)
    requires forall i, j :: 0 <= i < j < |cfg.custom| ==> cfg.custom[i].name != cfg.custom[j].name
    requires !a.Disabled?
    ensures Wants(text, a, cfg, find) <==>
              text != "" && exists c <- find(text) :: c.start <= c.end <= |text| && Configured(cfg, c.pattern, a)
  {
    if text != "" {
      var cs, n := find(text), |text|;
      if k :| 0 <= k < |cs| && Heard(cfg, cs, n, k) && Configured(cfg, cs[k].pattern, a) {
        assert cs[k] in cs;
      }
      if c :| c in cs && c.start <= c.end <= n && Configured(cfg, c.pattern, a) {
        var k :| 0 <= k < |cs| && cs[k] == c;
        SomeHeard(cfg, cs, n, k, a);
      }
    }
  }

  lemma {:induction false} SomeHeard(cfg: Config, cs: seq<Candidate>, n: nat, k: nat, a: Action)
    requires forall i, j :: 0 <= i < j < |cfg.custom| ==> cfg.custom[i].name != cfg.custom[j].name
    requires k < |cs| && cs[k].start <= cs[k].end <= n && Configured(cfg, cs[k].pattern, a) && !a.Disabled?
    ensures exists i | 0 <= i < |cs| :: Heard(cfg, cs, n, i) && Configured(cfg, cs[i].pattern, a)
  {
    if !Heard(cfg, cs, n, k) {
      var j :| 0 <= j < k && Counts(cfg, cs[j], n) && cs[j].start == cs[k].start && cs[j].end == cs[k].end
        && SameName(cfg, cs[j].pattern, cs[k].pattern);
      SomeHeard(cfg, cs, n, j, a);
    }
  }

  // Where two share one, the first to find a span decides: what the second would block goes out.
  lemma SharedNameSilences(text: string, find: Finder)
    requires text != ""
    requires find(text) == [Candidate(Custom(0), 0, |text|), Candidate(Custom(1), 0, |text|)]
    ensures var cfg := Config(true, map[], [CustomPattern("codename", Flag), CustomPattern("codename", Block)]);
            !Wants(text, Block, cfg, find) && Wants(text, Flag, cfg, find)
  {
    var cfg := Config(true, map[], [CustomPattern("codename", Flag), CustomPattern("codename", Block)]);
    assert Heard(cfg, find(text), |text|, 0) && Configured(cfg, find(text)[0].pattern, Flag);
    assert !Heard(cfg, find(text), |text|, 1);
  }
}
