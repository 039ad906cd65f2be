// The output-leak guardrail (app/guardrails/output_leak.py) applied to a complete response
// and to a stream (app/api/routes/chat.py), and that the two agree.
module LeakGuard {
  import opened Wrappers
  import Redaction
  import opened ToolCalls

  // ----- Actions and configuration -----

  datatype Action = Disabled | Flag | Redact | Block {
    function Severity(): nat {
      match this
      case Disabled => 0
      case Flag => 1
      case Redact => 2
      case Block => 3
    }
  }

  datatype Category = Email | Phone | Ssn | CreditCard | IpAddress | SecretToken

  datatype CustomPattern = CustomPattern(name: string, action: Action)

  datatype Config = Config(enabled: bool, categories: map<Category, Action>, custom: seq<CustomPattern>)

  // Which pattern found something: a built-in one of a category, or a custom one.
  datatype Pattern = BuiltIn(category: Category, name: string) | Custom(position: nat)

  // What the regular expressions, the checksum and the allow-list leave of a text's
  // candidates, in the order they are tried: an arbitrary function of the text.
  datatype Candidate = Candidate(pattern: Pattern, start: nat, end: nat)
  type Finder = string -> seq<Candidate>

  datatype Match = Match(
    category: Option<Category>,
    name: string,
    start: nat,
    end: nat,
    action: Action,
    toolCall: Option<int>)

  // An omitted category is flagged, not disabled.
  function ActionOf(cfg: Config, p: Pattern): Action {
    match p
    case BuiltIn(c, _) => if c in cfg.categories then cfg.categories[c] else Flag
    case Custom(i) => if i < |cfg.custom| then cfg.custom[i].action else Disabled
  }

  function MatchOf(cfg: Config, c: Candidate): Match {
    match c.pattern
    case BuiltIn(category, name) => Match(Some(category), name, c.start, c.end, ActionOf(cfg, c.pattern), None)
    case Custom(i) => Match(None, if i < |cfg.custom| then cfg.custom[i].name else "", c.start, c.end, ActionOf(cfg, c.pattern), None)
  }

  predicate SameKey(a: Match, b: Match) {
    a.category == b.category && a.name == b.name && a.start == b.start && a.end == b.end
  }

  // A match of a pattern that is not disabled, inside the text.
  predicate Reportable(m: Match, length: nat) {
    !m.action.Disabled? && m.start <= m.end <= length
  }

  predicate HasKey(ms: seq<Match>, m: Match) {
    exists b <- ms :: SameKey(b, m)
  }

  // The reportable matches, the first of each key.
  function Kept(found: seq<Match>, length: nat): seq<Match> {
    if found == [] then []
    else
      var before, m := Kept(found[..|found| - 1], length), found[|found| - 1];
      if Reportable(m, length) && !HasKey(before, m) then before + [m] else before
  }

  function Matches(cfg: Config, cs: seq<Candidate>): (r: seq<Match>)
    ensures |r| == |cs|
  {
    seq(|cs|, i requires 0 <= i < |cs| => MatchOf(cfg, cs[i]))
  }

  function ScanText(text: string, cfg: Config, find: Finder): seq<Match> {
    if text == "" then [] else Kept(Matches(cfg, find(text)), |text|)
  }

  // Redaction is not possible inside a tool call's arguments: it becomes a block.
  function Clamped(m: Match, index: int): Match {
    m.(toolCall := Some(index), action := if m.action.Redact? then Block else m.action)
  }

  function ScanArguments(index: int, arguments: string, cfg: Config, find: Finder): seq<Match> {
    var ms := ScanText(arguments, cfg, find);
    seq(|ms|, i requires 0 <= i < |ms| => Clamped(ms[i], index))
  }

  function ScanCalls(indices: seq<int>, arguments: seq<string>, cfg: Config, find: Finder): seq<Match>
    requires |indices| == |arguments|
  {
    if indices == [] then []
    else
      ScanCalls(indices[..|indices| - 1], arguments[..|indices| - 1], cfg, find)
      + ScanArguments(indices[|indices| - 1], arguments[|indices| - 1], cfg, find)
  }

  // The most restrictive action of all; Disabled if there is no match.
  function Overall(ms: seq<Match>): Action {
    if ms == [] then Disabled
    else Stricter(Overall(ms[..|ms| - 1]), ms[|ms| - 1].action)
  }

  function Stricter(a: Action, b: Action): Action {
    if b.Severity() > a.Severity() then b else a
  }

  predicate RequiresBuffering(cfg: Config) {
    cfg.enabled
    && ((exists c <- cfg.categories :: cfg.categories[c].Redact? || cfg.categories[c].Block?)
        || (exists p <- cfg.custom :: p.action.Redact? || p.action.Block?))
  }

  // ----- Redacting content -----

  function UpperChar(c: char): char {
    if 'a' <= c <= 'z' then 'A' + (c - 'a') else c
  }

  function Token(m: Match): string {
    match m.category
    case None => "[" + seq(|m.name|, i requires 0 <= i < |m.name| => UpperChar(m.name[i])) + "]"
    case Some(Email) => "[EMAIL]"
    case Some(Phone) => "[PHONE]"
    case Some(Ssn) => "[SSN]"
    case Some(CreditCard) => "[CREDIT_CARD]"
    case Some(IpAddress) => "[IP_ADDRESS]"
    case Some(SecretToken) => "[SECRET]"
  }

  function SpansOf(ms: seq<Match>): seq<Redaction.Span> {
    seq(|ms|, i requires 0 <= i < |ms| => Redaction.Span(ms[i].start, ms[i].end, Token(ms[i])))
  }

  // The matches found in the content itself.
  function InContent(ms: seq<Match>): seq<Match> {
    if ms == [] then []
    else
      var before, m := InContent(ms[..|ms| - 1]), ms[|ms| - 1];
      if m.toolCall.None? then before + [m] else before
  }

  function Redacted(text: string, ms: seq<Match>): string {
    Redaction.Scan(text, SpansOf(InContent(ms)), 0)
  }

  // ----- A complete response -----

  datatype Choice = Choice(content: Option<string>, toolCalls: Option<seq<ToolCall>>)

  function ArgumentsOf(calls: seq<ToolCall>): (r: seq<string>)
    ensures |r| == |calls|
  {
    seq(|calls|, i requires 0 <= i < |calls| => calls[i].arguments)
  }

  function Positions(n: nat): (r: seq<int>)
    ensures |r| == n
  {
    seq(n, i => i)
  }

  function ScanChoice(c: Choice, cfg: Config, find: Finder): seq<Match> {
    (if c.content.Some? then ScanText(c.content.value, cfg, find) else [])
    + (if c.toolCalls.Some? then ScanCalls(Positions(|c.toolCalls.value|), ArgumentsOf(c.toolCalls.value), cfg, find) else [])
  }

  function AllMatches(cs: seq<Choice>, cfg: Config, find: Finder): seq<Match> {
    if cs == [] then [] else AllMatches(cs[..|cs| - 1], cfg, find) + ScanChoice(cs[|cs| - 1], cfg, find)
  }

  function GuardedChoice(c: Choice, cfg: Config, find: Finder): Choice {
    var ms := ScanChoice(c, cfg, find);
    if Overall(ms).Redact? && c.content.Some? then c.(content := Some(Redacted(c.content.value, ms))) else c
  }

  datatype Outcome = Blocked | Released(choices: seq<Choice>)

  function ResponseAction(cs: seq<Choice>, cfg: Config, find: Finder): Action {
    if cfg.enabled then Overall(AllMatches(cs, cfg, find)) else Disabled
  }

  // Blocked, or released with exactly the redact-level choices redacted.
  function GuardedResponse(cs: seq<Choice>, cfg: Config, find: Finder): Outcome {
    match ResponseAction(cs, cfg, find)
    case Block => Blocked
    case Redact => Released(seq(|cs|, i requires 0 <= i < |cs| => GuardedChoice(cs[i], cfg, find)))
    case _ => Released(cs)
  }

  // ----- A stream -----

  datatype Frame =
    // A frame with a delta: its text, its tool-call fragments, and all the rest of it.
    | Chunk(content: Option<string>, fragments: seq<Fragment>, rest: string)
    // The frame a redacted stream is collapsed into, tool calls complete and without index.
    | Collapsed(text: string, toolCalls: Option<seq<ToolCall>>)
    | Stop
    | Error(code: string)
    // A frame whose `choices` is true and yet has no element 0: looking for its delta raises.
    | Unreadable(raw: string)
    // Anything else: malformed, or without a delta.
    | Other(raw: string)
    | Done

  function TextOf(f: Frame): string {
    match f
    case Chunk(Some(content), _, _) => content
    case Collapsed(text, _) => text
    case _ => ""
  }

  function FragmentsOf(f: Frame): seq<Fragment> {
    match f
    case Chunk(_, fragments, _) => fragments
    case _ => []
  }

  function TextOfAll(fs: seq<Frame>): string {
    if fs == [] then "" else TextOfAll(fs[..|fs| - 1]) + TextOf(fs[|fs| - 1])
  }

  function SlotsOfAll(fs: seq<Frame>): Slots {
    if fs == [] then map[] else AddedAll(SlotsOfAll(fs[..|fs| - 1]), FragmentsOf(fs[|fs| - 1]))
  }

  function OrderOfAll(fs: seq<Frame>): seq<int> {
    if fs == [] then [] else ArrivedAll(OrderOfAll(fs[..|fs| - 1]), FragmentsOf(fs[|fs| - 1]))
  }

  lemma {:induction false} OrderOfAllOrders(fs: seq<Frame>)
    ensures Orders(OrderOfAll(fs), SlotsOfAll(fs))
  {
    if fs != [] {
      OrderOfAllOrders(fs[..|fs| - 1]);
      ArrivedAllOrders(OrderOfAll(fs[..|fs| - 1]), SlotsOfAll(fs[..|fs| - 1]), FragmentsOf(fs[|fs| - 1]));
    }
  }

  function SlotArguments(slots: Slots, keys: seq<int>): (r: seq<string>)
    requires forall i :: 0 <= i < |keys| ==> keys[i] in slots
    ensures |r| == |keys|
  {
    seq(|keys|, i requires 0 <= i < |keys| => slots[keys[i]].arguments)
  }

  // The arguments of all calls, in the order in which the calls first arrived.
  function ArrivedArguments(fs: seq<Frame>): (r: seq<string>)
    ensures |r| == |OrderOfAll(fs)|
  {
    OrderOfAllOrders(fs);
    SlotArguments(SlotsOfAll(fs), OrderOfAll(fs))
  }

  function StreamMatches(fs: seq<Frame>, cfg: Config, find: Finder): seq<Match> {
    ScanText(TextOfAll(fs), cfg, find) + ScanCalls(OrderOfAll(fs), ArrivedArguments(fs), cfg, find)
  }

  // The first frame the scan cannot look into; the number of frames if there is none.
  function FirstUnreadable(fs: seq<Frame>): (r: nat)
    ensures r <= |fs| && (forall i :: 0 <= i < r ==> !fs[i].Unreadable?)
    ensures r < |fs| ==> fs[r].Unreadable?
  {
    if fs == [] || fs[0].Unreadable? then 0 else 1 + FirstUnreadable(fs[1..])
  }

  // What the guard has let out when it ends, by itself or because it raised.
  datatype Guarded = Guarded(frames: seq<Frame>, raised: bool)

  function GuardedStream(fs: seq<Frame>, cfg: Config, find: Finder): Guarded {
    if !cfg.enabled then Guarded(fs, false)
    else if FirstUnreadable(fs) < |fs| then
      Guarded(if RequiresBuffering(cfg) then [] else fs[..FirstUnreadable(fs)], true)
    else if !RequiresBuffering(cfg) then Guarded(fs, false)
    else
      var ms := StreamMatches(fs, cfg, find);
      match Overall(ms)
      case Block => Guarded([Error("output_leak_detected"), Done], false)
      case Redact =>
        Guarded([Collapsed(Redacted(TextOfAll(fs), ms), AssembledToolCalls(SlotsOfAll(fs))), Stop, Done], false)
      case _ => Guarded(fs, false)
  }

  // ----- Facts about scans -----

  lemma ArrivedArgumentsAre(fs: seq<Frame>)
    ensures Orders(OrderOfAll(fs), SlotsOfAll(fs))
    ensures (forall i :: 0 <= i < |OrderOfAll(fs)| ==> OrderOfAll(fs)[i] in SlotsOfAll(fs))
         && ArrivedArguments(fs) == SlotArguments(SlotsOfAll(fs), OrderOfAll(fs))
  {
    OrderOfAllOrders(fs);
  }

  lemma {:induction false} KeptAreFound(found: seq<Match>, length: nat)
    ensures forall m <- Kept(found, length) :: m in found && Reportable(m, length)
  {
    if found != [] {
      KeptAreFound(found[..|found| - 1], length);
      assert found == found[..|found| - 1] + [found[|found| - 1]];
    }
  }

  lemma CollectFacts(cfg: Config, cs: seq<Candidate>, length: nat)
    ensures forall m <- Kept(Matches(cfg, cs), length) ::
              && m.start <= m.end <= length && m.toolCall.None? && !m.action.Disabled?
              && exists p :: m.action == ActionOf(cfg, p)
  {
    KeptAreFound(Matches(cfg, cs), length);
    forall m | m in Kept(Matches(cfg, cs), length)
      ensures m.toolCall.None? && exists p :: m.action == ActionOf(cfg, p)
    {
      var k :| 0 <= k < |cs| && m == Matches(cfg, cs)[k];
      assert m.action == ActionOf(cfg, cs[k].pattern);
    }
  }

  // The match at k is the first reportable one of its key.
  ghost predicate FirstOfKey(found: seq<Match>, length: nat, k: nat)
    requires k < |found|
  {
    && Reportable(found[k], length)
    && forall j :: 0 <= j < k && Reportable(found[j], length) ==> !SameKey(found[j], found[k])
  }

  // No key is kept twice.
  lemma {:induction false} KeysKeptOnce(found: seq<Match>, length: nat)
    ensures forall i, j :: 0 <= i < j < |Kept(found, length)| ==> !SameKey(Kept(found, length)[i], Kept(found, length)[j])
  {
    if found != [] {
      KeysKeptOnce(found[..|found| - 1], length);
    }
  }

  // A key is among the kept ones exactly if it is among the reportable ones.
  lemma {:induction false} KeysKept(found: seq<Match>, length: nat, m: Match)
    ensures HasKey(Kept(found, length), m) <==> exists k :: 0 <= k < |found| && Reportable(found[k], length) && SameKey(found[k], m)
  {
    hide Reportable;
    if found != [] {
      var n := |found| - 1;
      var init, last := found[..n], found[n];
      KeysKept(init, length, m);
      assert forall k :: 0 <= k < n ==> init[k] == found[k];
      KeyAppended(Kept(init, length), last, m);
      SameKeyAlike(Kept(init, length), last, m);
    }
  }

  lemma KeyAppended(ms: seq<Match>, last: Match, m: Match)
    ensures HasKey(ms + [last], m) <==> HasKey(ms, m) || SameKey(last, m)
  {
    if HasKey(ms, m) {
      var b :| b in ms && SameKey(b, m);
      assert b in ms + [last];
    }
    assert last in ms + [last];
  }

  lemma SameKeyAlike(ms: seq<Match>, a: Match, b: Match)
    ensures SameKey(a, b) ==> HasKey(ms, a) == HasKey(ms, b)
  {
    if c :| c in ms && SameKey(c, a) {
      assert SameKey(a, b) ==> SameKey(c, b);
    }
    if c :| c in ms && SameKey(c, b) {
      assert SameKey(a, b) ==> SameKey(c, a);
    }
  }

  lemma FirstOfKeyLocal(found: seq<Match>, length: nat, k: nat, n: nat)
    requires k < n <= |found|
    ensures FirstOfKey(found[..n], length, k) <==> FirstOfKey(found, length, k)
  {
    hide Reportable, SameKey;
    assert forall j :: 0 <= j <= k ==> found[..n][j] == found[j];
  }

  lemma FirstOfKeyLast(found: seq<Match>, length: nat)
    requires found != []
    ensures var n := |found| - 1;
            FirstOfKey(found, length, n) <==> Reportable(found[n], length) && !HasKey(Kept(found[..n], length), found[n])
  {
    hide Reportable, SameKey, HasKey, Kept;
    var n := |found| - 1;
    KeysKept(found[..n], length, found[n]);
    assert forall j :: 0 <= j < n ==> found[..n][j] == found[j];
  }

  // What is kept is exactly the first reportable match of each key.
  lemma {:induction false} KeptAreFirstOfKey(found: seq<Match>, length: nat, m: Match)
    ensures m in Kept(found, length) <==> exists k :: 0 <= k < |found| && m == found[k] && FirstOfKey(found, length, k)
  {
    hide Reportable, FirstOfKey, HasKey;
    if found != [] {
      var n := |found| - 1;
      var before := Kept(found[..n], length);
      KeptAreFirstOfKey(found[..n], length, m);
      FirstOfKeyLast(found, length);
      forall k | 0 <= k < n
        ensures found[..n][k] == found[k] && (FirstOfKey(found[..n], length, k) <==> FirstOfKey(found, length, k))
      {
        FirstOfKeyLocal(found, length, k, n);
      }
      assert m in Kept(found, length) <==> m in before || (m == found[n] && FirstOfKey(found, length, n));
    }
  }

  lemma {:induction false} OverallConcat(ms: seq<Match>, ns: seq<Match>)
    ensures Overall(ms + ns) == Stricter(Overall(ms), Overall(ns))
  {
    if ns == [] {
      assert ms + ns == ms;
    } else {
      OverallConcat(ms, ns[..|ns| - 1]);
      assert (ms + ns)[..|ms + ns| - 1] == ms + ns[..|ns| - 1];
    }
  }

  // The overall action is one of the matches' own, and none is stricter.
  lemma {:induction false} OverallIsStrictest(ms: seq<Match>)
    ensures ms == [] ==> Overall(ms) == Disabled
    ensures forall m <- ms :: m.action.Severity() <= Overall(ms).Severity()
    ensures Overall(ms) == Disabled || exists m <- ms :: m.action == Overall(ms)
  {
    if ms != [] {
      OverallIsStrictest(ms[..|ms| - 1]);
      assert ms == ms[..|ms| - 1] + [ms[|ms| - 1]];
      assert ms[|ms| - 1] in ms;
    }
  }

  lemma {:induction false} InContentConcat(ms: seq<Match>, ns: seq<Match>)
    ensures InContent(ms + ns) == InContent(ms) + InContent(ns)
  {
    if ns == [] {
      assert ms + ns == ms;
    } else {
      InContentConcat(ms, ns[..|ns| - 1]);
      assert (ms + ns)[..|ms + ns| - 1] == ms + ns[..|ns| - 1];
    }
  }

  lemma {:induction false} InContentAll(ms: seq<Match>)
    ensures (forall m <- ms :: m.toolCall.None?) ==> InContent(ms) == ms
    ensures (forall m <- ms :: m.toolCall.Some?) ==> InContent(ms) == []
  {
    if ms != [] {
      InContentAll(ms[..|ms| - 1]);
      assert ms[|ms| - 1] in ms;
      assert ms == ms[..|ms| - 1] + [ms[|ms| - 1]];
    }
  }

  lemma {:induction false} ScanCallsFacts(indices: seq<int>, arguments: seq<string>, cfg: Config, find: Finder)
    requires |indices| == |arguments|
    ensures forall m <- ScanCalls(indices, arguments, cfg, find) :: m.toolCall.Some? && !m.action.Redact?
  {
    if indices != [] {
      ScanCallsFacts(indices[..|indices| - 1], arguments[..|indices| - 1], cfg, find);
    }
  }

  // A scan of content and tool calls together: what is in content is the content's scan.
  lemma ContentPart(text: string, indices: seq<int>, arguments: seq<string>, cfg: Config, find: Finder)
    requires |indices| == |arguments|
    ensures InContent(ScanText(text, cfg, find) + ScanCalls(indices, arguments, cfg, find)) == ScanText(text, cfg, find)
    ensures Redaction.InBounds(SpansOf(ScanText(text, cfg, find)), |text|)
  {
    var ms, ns := ScanText(text, cfg, find), ScanCalls(indices, arguments, cfg, find);
    CollectFacts(cfg, find(text), |text|);
    ScanCallsFacts(indices, arguments, cfg, find);
    InContentConcat(ms, ns);
    InContentAll(ms);
    InContentAll(ns);
    forall s | s in SpansOf(ms)
      ensures s.start <= s.end <= |text|
    {
      var i :| 0 <= i < |ms| && SpansOf(ms)[i] == s;
      assert ms[i] in ms;
    }
  }

  lemma ChoiceSpansInBounds(c: Choice, cfg: Config, find: Finder)
    requires c.content.Some?
    ensures Redaction.InBounds(SpansOf(InContent(ScanChoice(c, cfg, find))), |c.content.value|)
  {
    if c.toolCalls.Some? {
      ContentPart(c.content.value, Positions(|c.toolCalls.value|), ArgumentsOf(c.toolCalls.value), cfg, find);
    } else {
      ContentPart(c.content.value, [], [], cfg, find);
    }
  }

  lemma StreamSpansInBounds(fs: seq<Frame>, cfg: Config, find: Finder)
    ensures InContent(StreamMatches(fs, cfg, find)) == ScanText(TextOfAll(fs), cfg, find)
    ensures Redaction.InBounds(SpansOf(InContent(StreamMatches(fs, cfg, find))), |TextOfAll(fs)|)
  {
    ContentPart(TextOfAll(fs), OrderOfAll(fs), ArrivedArguments(fs), cfg, find);
  }

  // ----- The action depends on no order and no index -----

  ghost predicate Asks(ms: seq<Match>, a: Action) {
    exists m <- ms :: m.action == a
  }

  // What a text would ask for as the arguments of a tool call.
  ghost predicate AsksAsArguments(text: string, a: Action, cfg: Config, find: Finder) {
    exists m <- ScanText(text, cfg, find) :: Clamped(m, 0).action == a
  }

  lemma OverallOfSameActions(ms: seq<Match>, ns: seq<Match>)
    requires forall a :: Asks(ms, a) == Asks(ns, a)
    ensures Overall(ms) == Overall(ns)
  {
    hide Overall;
    OverallIsStrictest(ms);
    OverallIsStrictest(ns);
    if ms != [] {
      assert ms[0] in ms && Asks(ms, ms[0].action);
    }
    if ns != [] {
      assert ns[0] in ns && Asks(ns, ns[0].action);
    }
    assert ms != [] ==> Asks(ms, Overall(ms)) || Overall(ms).Disabled?;
    assert ns != [] ==> Asks(ns, Overall(ns)) || Overall(ns).Disabled?;
  }

  lemma ArgumentsAsk(index: int, text: string, a: Action, cfg: Config, find: Finder)
    ensures Asks(ScanArguments(index, text, cfg, find), a) == AsksAsArguments(text, a, cfg, find)
  {
    hide ScanText;
    var ms, ns := ScanText(text, cfg, find), ScanArguments(index, text, cfg, find);
    if m :| m in ms && Clamped(m, 0).action == a {
      var k :| 0 <= k < |ms| && ms[k] == m;
      assert ns[k] in ns && ns[k].action == a;
    }
    if n :| n in ns && n.action == a {
      var k :| 0 <= k < |ns| && ns[k] == n;
      assert ms[k] in ms && Clamped(ms[k], 0).action == a;
    }
  }

  // What the calls ask for is what some call's arguments ask for, whatever its index.
  lemma {:induction false} CallsAsk(indices: seq<int>, arguments: seq<string>, a: Action, cfg: Config, find: Finder)
    requires |indices| == |arguments|
    ensures Asks(ScanCalls(indices, arguments, cfg, find), a) <==> exists t <- arguments :: AsksAsArguments(t, a, cfg, find)
  {
    hide ScanArguments, AsksAsArguments;
    if indices != [] {
      var n := |indices| - 1;
      CallsAsk(indices[..n], arguments[..n], a, cfg, find);
      ArgumentsAsk(indices[n], arguments[n], a, cfg, find);
      assert arguments == arguments[..n] + [arguments[n]];
      AsksConcat(ScanCalls(indices[..n], arguments[..n], cfg, find), ScanArguments(indices[n], arguments[n], cfg, find), a);
    }
  }

  lemma AsksConcat(ms: seq<Match>, ns: seq<Match>, a: Action)
    ensures Asks(ms + ns, a) <==> Asks(ms, a) || Asks(ns, a)
  {
    if m :| m in ms && m.action == a {
      assert m in ms + ns;
    }
    if m :| m in ns && m.action == a {
      assert m in ms + ns;
    }
  }

  // Neither the order of the calls nor their indices influence the action: only which texts
  // there are among their arguments does.
  lemma OrderIrrelevant(text: string, from: seq<int>, to: seq<int>, some: seq<string>, others: seq<string>, cfg: Config, find: Finder)
    requires |from| == |some| && |to| == |others| && forall t :: t in some <==> t in others
    ensures Overall(ScanText(text, cfg, find) + ScanCalls(from, some, cfg, find))
         == Overall(ScanText(text, cfg, find) + ScanCalls(to, others, cfg, find))
  {
    hide Overall, ScanText, ScanCalls, AsksAsArguments, Asks;
    var content, ms, ns := ScanText(text, cfg, find), ScanCalls(from, some, cfg, find), ScanCalls(to, others, cfg, find);
    forall a
      ensures Asks(content + ms, a) == Asks(content + ns, a)
    {
      CallsAsk(from, some, a, cfg, find);
      CallsAsk(to, others, a, cfg, find);
      AsksConcat(content, ms, a);
      AsksConcat(content, ns, a);
    }
    OverallOfSameActions(content + ms, content + ns);
  }

  lemma SameTexts(slots: Slots, from: seq<int>, to: seq<int>)
    requires forall i: int :: i in slots ==> i in from
    requires forall i: int :: i in slots ==> i in to
    requires forall k :: 0 <= k < |from| ==> from[k] in slots
    requires forall k :: 0 <= k < |to| ==> to[k] in slots
    ensures forall t :: t in SlotArguments(slots, from) <==> t in SlotArguments(slots, to)
  {
    forall t
      ensures t in SlotArguments(slots, from) ==> t in SlotArguments(slots, to)
      ensures t in SlotArguments(slots, to) ==> t in SlotArguments(slots, from)
    {
      TextAmong(slots, from, to, t);
      TextAmong(slots, to, from, t);
    }
  }

  lemma TextAmong(slots: Slots, from: seq<int>, to: seq<int>, t: string)
    requires forall k :: 0 <= k < |from| ==> from[k] in slots
    requires forall k :: 0 <= k < |to| ==> to[k] in slots
    requires forall i: int :: i in slots ==> i in to
    ensures t in SlotArguments(slots, from) ==> t in SlotArguments(slots, to)
  {
    if t in SlotArguments(slots, from) {
      var k :| 0 <= k < |from| && SlotArguments(slots, from)[k] == t;
      var i := from[k];
      assert i in to;
      var l :| 0 <= l < |to| && to[l] == i;
      assert SlotArguments(slots, to)[l] == t;
    }
  }

  // ----- Agreement -----

  // The live branch is sound: where nothing is held back, no match, in content or in tool
  // calls, could have asked for more than a flag.
  lemma LiveIsSound(fs: seq<Frame>, cfg: Config, find: Finder)
    requires cfg.enabled && !RequiresBuffering(cfg)
    ensures forall m <- StreamMatches(fs, cfg, find) :: m.action.Flag?
    ensures Overall(StreamMatches(fs, cfg, find)).Disabled? || Overall(StreamMatches(fs, cfg, find)).Flag?
  {
    FlagsOnly(TextOfAll(fs), cfg, find);
    FlagsOnlyInCalls(OrderOfAll(fs), ArrivedArguments(fs), cfg, find);
    OverallIsStrictest(StreamMatches(fs, cfg, find));
  }

  lemma FlagsOnly(text: string, cfg: Config, find: Finder)
    requires cfg.enabled && !RequiresBuffering(cfg)
    ensures forall m <- ScanText(text, cfg, find) :: m.action.Flag?
  {
    CollectFacts(cfg, find(text), |text|);
    forall p: Pattern
      ensures !ActionOf(cfg, p).Redact? && !ActionOf(cfg, p).Block?
    {
      match p
      case BuiltIn(c, _) =>
      case Custom(i) => assert i < |cfg.custom| ==> cfg.custom[i] in cfg.custom;
    }
  }

  lemma {:induction false} FlagsOnlyInCalls(indices: seq<int>, arguments: seq<string>, cfg: Config, find: Finder)
    requires |indices| == |arguments| && cfg.enabled && !RequiresBuffering(cfg)
    ensures forall m <- ScanCalls(indices, arguments, cfg, find) :: m.action.Flag?
  {
    if indices != [] {
      var n := |indices| - 1;
      FlagsOnlyInCalls(indices[..n], arguments[..n], cfg, find);
      FlagsOnly(arguments[n], cfg, find);
    }
  }

  // The response a stream of one choice amounts to.
  function ChoiceOf(fs: seq<Frame>): Choice {
    Choice(Some(TextOfAll(fs)), AssembledToolCalls(SlotsOfAll(fs)))
  }

  lemma EmptyOrder(order: seq<int>, slots: Slots)
    requires Orders(order, slots)
    ensures slots == map[] ==> order == []
  {
    if order != [] {
      assert order[0] in slots;
    }
  }

  lemma AssembledArguments(fs: seq<Frame>)
    ensures SlotsOfAll(fs) == map[] ==> OrderOfAll(fs) == [] && ArrivedArguments(fs) == []
    ensures SlotsOfAll(fs) != map[] ==>
              forall t :: t in ArrivedArguments(fs) <==> t in ArgumentsOf(AssembledToolCalls(SlotsOfAll(fs)).value)
  {
    var slots, order := SlotsOfAll(fs), OrderOfAll(fs);
    ArrivedArgumentsAre(fs);
    if slots == map[] {
      EmptyOrder(order, slots);
    } else {
      var keys := SortedKeys(slots.Keys);
      forall k | 0 <= k < |keys|
        ensures keys[k] in slots
      {
        assert keys[k] in keys;
      }
      SameTexts(slots, order, keys);
      assert ArgumentsOf(AssembledToolCalls(slots).value) == SlotArguments(slots, keys);
    }
  }

  // The stream and the response it amounts to are found to deserve the same action.
  lemma SameAction(fs: seq<Frame>, cfg: Config, find: Finder)
    ensures Overall(ScanChoice(ChoiceOf(fs), cfg, find)) == Overall(StreamMatches(fs, cfg, find))
  {
    hide Overall, ScanCalls, ScanText, OrderOfAll, SlotsOfAll, TextOfAll, ArrivedArguments;
    var c := ChoiceOf(fs);
    AssembledArguments(fs);
    if c.toolCalls.Some? {
      var calls := c.toolCalls.value;
      OrderIrrelevant(TextOfAll(fs), Positions(|calls|), OrderOfAll(fs), ArgumentsOf(calls), ArrivedArguments(fs), cfg, find);
    } else {
      NoCalls(cfg, find);
    }
  }

  // ... and the same spans of their text are found in both.
  lemma SameContent(fs: seq<Frame>, cfg: Config, find: Finder)
    ensures InContent(ScanChoice(ChoiceOf(fs), cfg, find)) == InContent(StreamMatches(fs, cfg, find))
  {
    hide ScanCalls, ScanText, InContent, OrderOfAll, SlotsOfAll, TextOfAll, ArrivedArguments;
    var c := ChoiceOf(fs);
    StreamSpansInBounds(fs, cfg, find);
    if c.toolCalls.Some? {
      ContentPart(TextOfAll(fs), Positions(|c.toolCalls.value|), ArgumentsOf(c.toolCalls.value), cfg, find);
    } else {
      NoCalls(cfg, find);
      ContentPart(TextOfAll(fs), [], [], cfg, find);
    }
  }

  lemma NoCalls(cfg: Config, find: Finder)
    ensures ScanCalls([], [], cfg, find) == []
  {
  }

  lemma OneChoice(c: Choice, cfg: Config, find: Finder)
    ensures AllMatches([c], cfg, find) == ScanChoice(c, cfg, find)
  {
    hide ScanChoice;
    assert [c][..0] == [];
  }

  // A guarded stream agrees with a guarded response: blocked alike, releasing none of the
  // model's frames; redacted alike, in one frame that carries the response's redacted text
  // and its tool calls; and otherwise both go out unchanged.
  ghost predicate Agrees(fs: seq<Frame>, c: Choice, cfg: Config, find: Finder) {
    var released, out := GuardedStream(fs, cfg, find).frames, GuardedResponse([c], cfg, find);
    match ResponseAction([c], cfg, find)
    case Block => out == Blocked && released == [Error("output_leak_detected"), Done]
    case Redact =>
      && out.Released? && |out.choices| == 1
      && out.choices[0].content.Some? && out.choices[0].toolCalls == c.toolCalls
      && released == [Collapsed(out.choices[0].content.value, c.toolCalls), Stop, Done]
    case _ => out == Released([c]) && released == fs
  }

  // For every configuration, every finder and every stream: the guard raises exactly if it is
  // on and a frame cannot be looked into, having let out nothing if it buffers and else the
  // frames before that one; and if it does not raise, what it does to the stream agrees with
  // what it does to the response the stream amounts to.
  lemma StreamAgreesWithResponse(fs: seq<Frame>, cfg: Config, find: Finder)
    ensures GuardedStream(fs, cfg, find).raised <==> cfg.enabled && exists f <- fs :: f.Unreadable?
    ensures GuardedStream(fs, cfg, find).raised ==>
              GuardedStream(fs, cfg, find).frames == if RequiresBuffering(cfg) then [] else fs[..FirstUnreadable(fs)]
    ensures !GuardedStream(fs, cfg, find).raised ==> Agrees(fs, ChoiceOf(fs), cfg, find)
  {
    hide Overall, InContent, ScanChoice, StreamMatches, AllMatches, RequiresBuffering, TextOfAll, SlotsOfAll;
    SameAction(fs, cfg, find);
    SameContent(fs, cfg, find);
    OneChoice(ChoiceOf(fs), cfg, find);
    if cfg.enabled && !RequiresBuffering(cfg) {
      LiveIsSound(fs, cfg, find);
    }
  }

  // ----- Any response, streamed in any way -----

  function FragmentsOfAll(fs: seq<Frame>): seq<Fragment> {
    if fs == [] then [] else FragmentsOfAll(fs[..|fs| - 1]) + FragmentsOf(fs[|fs| - 1])
  }

  lemma {:induction false} SlotsOfFragments(fs: seq<Frame>)
    ensures SlotsOfAll(fs) == AddedAll(map[], FragmentsOfAll(fs))
  {
    hide AddedAll, FragmentsOf;
    if fs == [] {
      AddedNone();
    } else {
      SlotsOfFragments(fs[..|fs| - 1]);
      AddedAllConcat(map[], FragmentsOfAll(fs[..|fs| - 1]), FragmentsOf(fs[|fs| - 1]));
    }
  }

  lemma AddedNone()
    ensures AddedAll(map[], []) == map[]
  {
  }

  // These frames carry this content, in any pieces, and these calls, in any fragments,
  // interleaved in any way, the k-th under the k-th of some increasing indices.
  ghost predicate Streams(fs: seq<Frame>, content: Option<string>, calls: seq<Call>, indices: seq<int>) {
    && TextOfAll(fs) == (if content.Some? then content.value else "")
    && |indices| == |calls| && Increasing(indices)
    && (forall i :: Own(FragmentsOfAll(fs), i) != [] <==> i in indices)
    && (forall k :: 0 <= k < |calls| ==> Fragments(calls[k], Own(FragmentsOfAll(fs), indices[k])))
  }

  function Response(content: Option<string>, calls: seq<Call>): Choice {
    Choice(content, if calls == [] then None else Some(seq(|calls|, k requires 0 <= k < |calls| => Sent(calls[k]))))
  }

  lemma StreamedIsResponse(fs: seq<Frame>, content: Option<string>, calls: seq<Call>, indices: seq<int>)
    requires Streams(fs, content, calls, indices)
    ensures ChoiceOf(fs) == Response(Some(if content.Some? then content.value else ""), calls)
  {
    hide AddedAll, Own, Fragments, TextOfAll, SlotsOfAll, FragmentsOfAll, AssembledToolCalls;
    SlotsOfFragments(fs);
    FragmentingRoundTrip(calls, indices, FragmentsOfAll(fs));
  }

  // A response without content is treated like one with an empty one.
  lemma NoContentIsEmpty(fs: seq<Frame>, calls: seq<Call>, cfg: Config, find: Finder)
    requires Agrees(fs, Response(Some(""), calls), cfg, find)
    ensures Agrees(fs, Response(None, calls), cfg, find)
  {
    hide Overall, ScanCalls, GuardedStream, AllMatches, RequiresBuffering;
    var empty, none := Response(Some(""), calls), Response(None, calls);
    OneChoice(empty, cfg, find);
    OneChoice(none, cfg, find);
    assert ScanText("", cfg, find) == [];
    assert ScanChoice(empty, cfg, find) == ScanChoice(none, cfg, find);
    OverallIsStrictest(ScanChoice(none, cfg, find));
    if calls != [] {
      ScanCallsFacts(Positions(|none.toolCalls.value|), ArgumentsOf(none.toolCalls.value), cfg, find);
    }
    assert !Overall(ScanChoice(none, cfg, find)).Redact?;
  }

  // For any response, whatever it says and whichever tools it calls, and any way of streaming
  // it: unless the guard raises, guarding the stream agrees with guarding the response.
  lemma StreamingAResponseAgrees(fs: seq<Frame>, content: Option<string>, calls: seq<Call>, indices: seq<int>, cfg: Config, find: Finder)
    requires Streams(fs, content, calls, indices) && !GuardedStream(fs, cfg, find).raised
    ensures Agrees(fs, Response(content, calls), cfg, find)
  {
    hide Agrees, Streams, GuardedStream, ChoiceOf, Response;
    StreamedIsResponse(fs, content, calls, indices);
    StreamAgreesWithResponse(fs, cfg, find);
    if content.None? {
      NoContentIsEmpty(fs, calls, cfg, find);
    }
  }
}
