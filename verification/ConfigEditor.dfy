// The admin operations on bullet lists (app/guardrails/editable_config.py): loops with a
// moving cursor over the raw text, proved to compute the lens of BulletLens.
module ConfigEditor {
  import opened Wrappers
  import opened BulletLens
  import opened BulletText

  // ----- Which sections of which configuration can be edited -----

  function Manifest(configId: string): Option<seq<Section>> {
    match configId
    case "self_check_input" =>
      Some([Section("policy", "task: self_check_input", "Company policy for the user messages:")])
    case "self_check_output" =>
      Some([Section("policy", "task: self_check_output", "Company policy for the bot:")])
    case "self_check_input_output" =>
      Some([Section("input_policy", "task: self_check_input", "Company policy for the user messages:"),
            Section("output_policy", "task: self_check_output", "Company policy for the bot:")])
    case "topic_safety" =>
      Some([Section("allowed_topics", "task: topic_safety_check_input" + " $model=topic_guard", "Allowed topics:")])
    case "jailbreak_input" =>
      Some([Section("policy", "task: self_check_input",
                    "A message should be blocked if it" + " does any of the following:")])
    case "topic_blocklist" =>
      Some([Section("blocked_topics", "task: topic_safety_check_input" + " $model=topic_guard", "Blocked topics:")])
    case "pii_regex" =>
      Some([Section("input_patterns", "input:", "patterns:"), Section("output_patterns", "output:", "patterns:")])
    case _ => None
  }

  // Exactly these can be edited, each in at least one section, and no two sections of one
  // configuration go by the same field.
  lemma EditableConfigs(configId: string)
    ensures Manifest(configId).Some? <==>
              configId in ["self_check_input", "self_check_output", "self_check_input_output", "topic_safety",
                           "jailbreak_input", "topic_blocklist", "pii_regex"]
    ensures Manifest(configId).Some? ==> 1 <= |Manifest(configId).value| <= 2
    ensures Manifest(configId).Some? && |Manifest(configId).value| == 2 ==>
              Manifest(configId).value[0].field != Manifest(configId).value[1].field
  {
    assert "input_policy"[0] == 'i' && "output_policy"[0] == 'o';
    assert "input_patterns"[0] == 'i' && "output_patterns"[0] == 'o';
  }

  // The theorems below ask for anchors and headers within one line; all of these are.
  lemma ManifestIsSingleLine(configId: string)
    ensures Manifest(configId).Some? ==> forall s <- Manifest(configId).value :: SingleLine(s)
  {
    AnchorsAreSingleLine();
    HeadersAreSingleLine();
    TopicAnchorIsSingleLine();
    LongHeaderIsSingleLine();
  }

  lemma AnchorsAreSingleLine()
    ensures '\n' !in "task: self_check_input" && '\n' !in "task: self_check_output"
    ensures '\n' !in "input:" && '\n' !in "output:"
  {
  }

  lemma HeadersAreSingleLine()
    ensures '\n' !in "Company policy for the user messages:" && '\n' !in "Company policy for the bot:"
    ensures '\n' !in "Allowed topics:" && '\n' !in "Blocked topics:" && '\n' !in "patterns:"
  {
  }

  lemma TopicAnchorIsSingleLine()
    ensures '\n' !in "task: topic_safety_check_input" + " $model=topic_guard"
  {
  }

  lemma LongHeaderIsSingleLine()
    ensures '\n' !in "A message should be blocked if it" + " does any of the following:"
  {
  }

  // ----- Finding one block -----

  datatype ParseError = AnchorMissing | HeaderMissing | NoBullets

  datatype Bullets = Bullets(items: seq<string>, start: nat, end: nat, indent: string)

  // What searching from `start` means: finding the section in the text from there on.
  ghost predicate Finds(b: Bullets, text: string, s: Section, start: nat) {
    && start <= |text|
    && Located(text[start..], s)
    && b == Bullets(BlockOf(text[start..], s).items, start + Start(text[start..], s),
                    start + End(text[start..], s), IndentOf(text[start..], s))
  }

  lemma FindShift(text: string, sub: string, start: nat, k: nat)
    requires start <= k <= |text|
    ensures var r, local := Find(text, sub, k), Find(text[start..], sub, k - start);
            (r.Some? <==> local.Some?) && (r.Some? ==> r.value == start + local.value)
  {
    hide Find;
    forall i | start <= i <= |text|
      ensures OccursAt(text, sub, i) <==> OccursAt(text[start..], sub, i - start)
    {
      if i + |sub| <= |text| {
        assert text[i..i + |sub|] == text[start..][i - start..i - start + |sub|];
      }
    }
    var r, local := Find(text, sub, k), Find(text[start..], sub, k - start);
    if r.Some? {
      assert OccursAt(text[start..], sub, r.value - start);
    }
    if local.Some? {
      assert OccursAt(text, sub, start + local.value);
    }
  }

  // Said of the text alone: the bullets lie right behind the section's header, and are all
  // the list there is; or else what is missing from `start` on.
  ghost predicate Lies(r: Result<Bullets, ParseError>, text: string, s: Section, start: nat)
    requires start <= |text|
  {
    var t := text[start..];
    match r
    case Success(b) =>
      && start <= b.start <= b.end <= |text| && b.items != []
      && BeginsAt(t, s.anchor, s.header, b.start - start)
      && ListAt(text[b.start..], b.indent, b.items, b.end - b.start)
    case Failure(AnchorMissing) => Nowhere(t, s.anchor, 0)
    case Failure(HeaderMissing) => exists a: nat | FirstHere(t, s.anchor, 0, a) :: Nowhere(t, s.header, a)
    case Failure(NoBullets) => exists n: nat | n <= |t| && BeginsAt(t, s.anchor, s.header, n) :: NoListAt(t[n..])
  }

  method FindBullets(text: string, s: Section, start: nat) returns (r: Result<Bullets, ParseError>)
    requires start <= |text|
    ensures r.Success? <==> Located(text[start..], s)
    ensures r.Success? ==> Finds(r.value, text, s, start)
    ensures Lies(r, text, s, start)
  {
    hide Find, LineLength, FirstLine, MatchBullet, BeginsAt, Nowhere, FirstHere, NoListAt, ListAt;
    SectionMeans(text[start..], s);
    var task := Find(text, s.anchor, start);
    FindShift(text, s.anchor, start, start);
    if task.None? {
      return Failure(AnchorMissing);
    }
    var header := Find(text, s.header, task.value);
    FindShift(text, s.header, start, task.value);
    if header.None? {
      return Failure(HeaderMissing);
    }
    var newline := Find(text, "\n", header.value);
    FindShift(text, "\n", start, header.value);
    var afterHeader := if newline.Some? then newline.value + 1 else |text|;
    ghost var t := text[start..];
    assert AfterHeader(t, s, 0) == Some(afterHeader - start);
    var items, end, indent := ReadBullets(text, afterHeader);
    assert text[afterHeader..] == t[afterHeader - start..];
    if items == [] {
      return Failure(NoBullets);
    }
    BeginsMeans(t, s, afterHeader - start);
    ReadIsListOfFirst(text[afterHeader..]);
    return Success(Bullets(items, afterHeader, end, indent));
  }

  // The line loop: collects bullets until the text ends, a line is no bullet, or the
  // indentation changes.
  method ReadBullets(text: string, from: nat) returns (items: seq<string>, pos: nat, indent: string)
    requires from <= |text|
    ensures var b := ReadBlock(text[from..], None);
            items == b.items && pos == from + b.length
    ensures items != [] ==> indent == MatchBullet(FirstLine(text[from..])).value.indent
  {
    hide LineLength, FirstLine, MatchBullet, ReadBlock;
    items, pos := [], from;
    var seen: Option<string> := None;
    while pos < |text|
      invariant from <= pos <= |text|
      invariant seen.None? <==> items == []
      invariant items == [] ==> pos == from
      invariant items != [] ==> Continues(text[from..], None)
      invariant items != [] ==> seen == Some(MatchBullet(FirstLine(text[from..])).value.indent)
      invariant var rest := ReadBlock(text[pos..], seen);
                ReadBlock(text[from..], None) == Block(items + rest.items, pos - from + rest.length)
      decreases |text| - pos
    {
      ghost var t := text[pos..];
      var line := FirstLine(text[pos..]);
      var m := MatchBullet(line);
      if m.None? || (seen.Some? && m.value.indent != seen.value) {
        break;
      }
      ReadBlockStep(t, seen);
      seen := Some(m.value.indent);
      items := items + [m.value.item];
      var n := LineLength(text[pos..]);
      assert t[n..] == text[pos + n..];
      pos := pos + n;
    }
    indent := if seen.Some? then seen.value else "";
  }

  // ----- Validating items -----

  const MAX_ITEMS := 100
  const MAX_ITEM_LENGTH := 500

  datatype ItemError = NoItems | TooManyItems | BlankItem | MultiLineItem | ItemTooLong

  function LStrip(s: string): string {
    if s != "" && IsSpace(s[0]) then LStrip(s[1..]) else s
  }

  function Strip(s: string): string {
    RStrip(LStrip(s))
  }

  // What is wrong with an item, if anything: the first of these that applies.
  function Fault(item: string): Option<ItemError> {
    var s := Strip(item);
    if s == "" then Some(BlankItem)
    else if '\n' in s || '\r' in s then Some(MultiLineItem)
    else if |s| > MAX_ITEM_LENGTH then Some(ItemTooLong)
    else None
  }

  lemma {:induction false} LStripFacts(s: string)
    ensures |LStrip(s)| <= |s| && LStrip(s) == s[|s| - |LStrip(s)|..]
    ensures forall k :: 0 <= k < |s| - |LStrip(s)| ==> White(s[k])
    ensures LStrip(s) != "" ==> !White(LStrip(s)[0])
  {
    hide White;
    if s != "" {
      SpaceIsWhite(s[0]);
      hide IsSpace;
      if IsSpace(s[0]) {
        LStripFacts(s[1..]);
        forall k | 1 <= k < |s| - |LStrip(s)|
          ensures White(s[k])
        {
          assert s[k] == s[1..][k - 1];
        }
      }
    }
  }

  lemma StripTrims(s: string)
    ensures Trimmed(s, Strip(s))
  {
    LStripFacts(s);
    var front, out := LStrip(s), Strip(s);
    RStripTrims(front);
    hide LStrip, RStrip, White;
    var i := |s| - |front|;
    assert out == front[..|out|] == s[i..i + |out|];
    forall k | i + |out| <= k < |s|
      ensures White(s[k])
    {
      assert s[k] == front[k - i];
    }
    assert TrimsTo(s, i, i + |out|);
  }

  // An item as it has to be once trimmed.
  ghost predicate Fine(out: string) {
    1 <= |out| <= 500 && '\n' !in out && '\r' !in out
  }

  // Why a trimmed item is refused: the first of these that applies.
  ghost predicate RefusedFor(out: string, e: ItemError) {
    if |out| == 0 then e == BlankItem
    else if '\n' in out || '\r' in out then e == MultiLineItem
    else |out| > 500 && e == ItemTooLong
  }

  // A list is accepted if it has between 1 and 100 items, each fine once trimmed.
  ghost predicate FineItems(items: seq<string>) {
    1 <= |items| <= 100 && forall i :: 0 <= i < |items| ==> FineItem(items[i])
  }

  ghost predicate TrimmedItems(items: seq<string>, outs: seq<string>) {
    |outs| == |items| && forall i :: 0 <= i < |items| ==> Trimmed(items[i], outs[i])
  }

  lemma ItemMeans(item: string)
    ensures ValidItem(item) <==> FineItem(item)
    ensures Fault(item).None? <==> ValidItem(item)
    ensures Fault(item).Some? ==> RefusedFor(Strip(item), Fault(item).value)
    ensures Trimmed(item, Strip(item))
  {
    hide Strip, Trimmed;
    StripTrims(item);
    if out :| Trimmed(item, out) && Fine(out) {
      TrimmedUnique(item, out, Strip(item));
    }
  }

  lemma ItemsMean(items: seq<string>)
    ensures ValidItems(items) <==> FineItems(items)
    ensures TrimmedItems(items, Stripped(items))
  {
    hide ValidItem, Trimmed, Strip, FineItem;
    forall i | 0 <= i < |items|
      ensures ValidItem(items[i]) <==> FineItem(items[i])
      ensures Trimmed(items[i], Stripped(items)[i])
    {
      ItemMeans(items[i]);
    }
    assert (forall item <- items :: ValidItem(item)) <==> forall i :: 0 <= i < |items| ==> ValidItem(items[i]);
  }

  // Said of the characters alone: accepted, and trimmed, exactly if every item is fine;
  // otherwise the reason is the list's length or what is wrong with its first faulty item.
  ghost predicate Judged(items: seq<string>, r: Result<seq<string>, ItemError>) {
    match r
    case Success(outs) => FineItems(items) && TrimmedItems(items, outs)
    case Failure(NoItems) => items == []
    case Failure(TooManyItems) => |items| > 100
    case Failure(e) =>
      && 1 <= |items| <= 100
      && exists i :: 0 <= i < |items| && RefusedItem(items[i], e) && forall j :: 0 <= j < i ==> FineItem(items[j])
  }

  ghost predicate FineItem(item: string) {
    exists out :: Trimmed(item, out) && Fine(out)
  }

  ghost predicate RefusedItem(item: string, e: ItemError) {
    exists out :: Trimmed(item, out) && RefusedFor(out, e)
  }

  lemma OutcomeMeans(items: seq<string>)
    ensures ValidItems(items) ==> Judged(items, Success(Stripped(items)))
    ensures items == [] ==> Judged(items, Failure(NoItems))
    ensures |items| > MAX_ITEMS ==> Judged(items, Failure(TooManyItems))
    ensures forall i | 0 <= i < |items| <= MAX_ITEMS && Fault(items[i]).Some? && (forall j :: 0 <= j < i ==> ValidItem(items[j])) ::
              Judged(items, Failure(Fault(items[i]).value))
  {
    ItemsMean(items);
    hide ValidItem, Trimmed, Strip, Fine, RefusedFor, FineItems, TrimmedItems;
    forall i | 0 <= i < |items|
      ensures ValidItem(items[i]) ==> FineItem(items[i])
      ensures Fault(items[i]).Some? ==> RefusedItem(items[i], Fault(items[i]).value)
    {
      ItemMeans(items[i]);
    }
  }

  predicate ValidItem(item: string) {
    Strip(item) != "" && '\n' !in Strip(item) && '\r' !in Strip(item) && |Strip(item)| <= MAX_ITEM_LENGTH
  }

  predicate ValidItems(items: seq<string>) {
    1 <= |items| <= MAX_ITEMS && forall item <- items :: ValidItem(item)
  }

  function Stripped(items: seq<string>): seq<string> {
    seq(|items|, i requires 0 <= i < |items| => Strip(items[i]))
  }

  method ValidateItems(items: seq<string>) returns (r: Result<seq<string>, ItemError>)
    ensures r.Success? <==> ValidItems(items)
    ensures r.Success? ==> r.value == Stripped(items) && AllClean(r.value)
    ensures r == Failure(NoItems) <==> items == []
    ensures r == Failure(TooManyItems) <==> |items| > MAX_ITEMS
    ensures r.Failure? && 1 <= |items| <= MAX_ITEMS ==>
              exists i :: 0 <= i < |items| && Fault(items[i]) == Some(r.error) && forall j :: 0 <= j < i ==> ValidItem(items[j])
    ensures Judged(items, r)
  {
    hide Judged;
    OutcomeMeans(items);
    var cleaned := Stripped(items);
    if cleaned == [] {
      return Failure(NoItems);
    }
    if |cleaned| > MAX_ITEMS {
      return Failure(TooManyItems);
    }
    for i := 0 to |cleaned|
      invariant forall j :: 0 <= j < i ==> ValidItem(items[j]) && Clean(cleaned[j])
    {
      var item := cleaned[i];
      assert items[i] in items;
      ghost var fault := Fault(items[i]);
      if item == "" {
        return Failure(BlankItem);
      }
      if '\n' in item || '\r' in item {
        return Failure(MultiLineItem);
      }
      if |item| > MAX_ITEM_LENGTH {
        return Failure(ItemTooLong);
      }
      RStripFacts(LStrip(items[i]));
    }
    return Success(cleaned);
  }

  // ----- Reading and writing a configuration -----

  datatype EditError =
    | UnknownConfig
    | WrongFields
    | InvalidItems(itemError: ItemError)
    | NotFound(parseError: ParseError)
    | InvalidYaml
    | RoundTripMismatch
    | CannotValidate
    | ReloadFailed
    | AuditUnavailable

  // An audit record of one accepted edit.
  datatype Entry = Entry(before: string, after: string)

  type Updates = map<string, seq<string>>

  function Fields(ss: seq<Section>): set<string> {
    set s <- ss :: s.field
  }

  function InOrder(ss: seq<Section>, updates: Updates): (r: seq<seq<string>>)
    requires Fields(ss) <= updates.Keys
    ensures |r| == |ss|
  {
    seq(|ss|, i requires 0 <= i < |ss| => assert ss[i] in ss; updates[ss[i].field])
  }

  function Cleaned(updates: Updates): Updates {
    map field <- updates :: Stripped(updates[field])
  }

  // Splices every section's new items in, front to back.
  method SpliceAll(original: string, ss: seq<Section>, items: seq<seq<string>>) returns (r: Result<string, ParseError>)
    requires |items| == |ss|
    ensures r.Success? <==> Found(original, ss)
    ensures r.Success? ==> r.value == Put(original, ss, items)
  {
    hide Located, Start, End, IndentOf, BlockOf, Print, Put, Found, Lies;
    var text, cursor := original, 0;
    assert original[0..] == original && ss[0..] == ss && items[0..] == items;
    for k := 0 to |ss|
      invariant cursor <= |text|
      invariant Found(original, ss) <==> Found(text[cursor..], ss[k..])
      invariant Found(original, ss) ==>
                  Put(original, ss, items) == text[..cursor] + Put(text[cursor..], ss[k..], items[k..])
    {
      ghost var t := text[cursor..];
      PutOne(t, ss, items, k);
      var found := FindBullets(text, ss[k], cursor);
      if found.Failure? {
        return Failure(found.error);
      }
      var b := found.value;
      var block := Print(b.indent, items[k]);
      ghost var before := text[..cursor];
      Spliced(text, cursor, b.start, b.end, block);
      text := text[..b.start] + block + text[b.end..];
      cursor := b.start + |block|;
      assert text[cursor..] == t[End(t, ss[k])..];
      assert text[..cursor] == before + (t[..Start(t, ss[k])] + block);
    }
    PutNone(text[cursor..], ss[|ss|..], items[|ss|..]);
    assert text[..cursor] + text[cursor..] == text;
    return Success(text);
  }

  // Putting from the k-th section on is putting that one and then the rest.
  lemma PutOne(t: string, ss: seq<Section>, items: seq<seq<string>>, k: nat)
    requires k < |ss| == |items|
    ensures Found(t, ss[k..]) <==> Located(t, ss[k]) && Found(t[End(t, ss[k])..], ss[k + 1..])
    ensures Found(t, ss[k..]) ==>
              Put(t, ss[k..], items[k..])
              == t[..Start(t, ss[k])] + Print(IndentOf(t, ss[k]), items[k]) + Put(t[End(t, ss[k])..], ss[k + 1..], items[k + 1..])
  {
    hide Located, Start, End, IndentOf, Print;
    assert ss[k..][0] == ss[k] && ss[k..][1..] == ss[k + 1..];
    assert items[k..][0] == items[k] && items[k..][1..] == items[k + 1..];
  }

  lemma PutNone(t: string, ss: seq<Section>, items: seq<seq<string>>)
    requires ss == [] && items == []
    ensures Found(t, ss) && Put(t, ss, items) == t
  {
  }

  lemma Spliced(text: string, cursor: nat, start: nat, end: nat, block: string)
    requires cursor <= start <= end <= |text|
    ensures var u := text[..start] + block + text[end..];
            && u[start + |block|..] == text[end..] == text[cursor..][end - cursor..]
            && u[..start + |block|] == text[..cursor] + (text[cursor..][..start - cursor] + block)
  {
  }

  // One section's items after the other, by field; a repeated field would keep its last.
  function ByField(ss: seq<Section>, items: seq<seq<string>>): (r: Updates)
    requires |items| == |ss|
    ensures r.Keys == Fields(ss)
  {
    if ss == [] then map[]
    else ByField(ss[..|ss| - 1], items[..|ss| - 1])[ss[|ss| - 1].field := items[|ss| - 1]]
  }

  lemma {:induction false} ByFieldInOrder(ss: seq<Section>, updates: Updates)
    requires Fields(ss) <= updates.Keys
    ensures forall field <- Fields(ss) :: ByField(ss, InOrder(ss, updates))[field] == updates[field]
  {
    if ss != [] {
      var init := ss[..|ss| - 1];
      ByFieldInOrder(init, updates);
      assert InOrder(ss, updates)[..|ss| - 1] == InOrder(init, updates);
      assert Fields(ss) == Fields(init) + {ss[|ss| - 1].field};
    }
  }

  // Reads every section, front to back.
  method ReadAll(text: string, ss: seq<Section>) returns (r: Result<seq<seq<string>>, ParseError>)
    ensures r.Success? <==> Found(text, ss)
    ensures r.Success? ==> r.value == Get(text, ss)
  {
    hide Located, Start, End, BlockOf, Lies;
    var result, cursor := [], 0;
    for k := 0 to |ss|
      invariant cursor <= |text|
      invariant Found(text, ss) <==> Found(text[cursor..], ss[k..])
      invariant Found(text, ss) ==> Get(text, ss) == result + Get(text[cursor..], ss[k..])
    {
      assert ss[k..][0] == ss[k] && ss[k..][1..] == ss[k + 1..];
      ghost var t := text[cursor..];
      var found := FindBullets(text, ss[k], cursor);
      if found.Failure? {
        return Failure(found.error);
      }
      result := result + [found.value.items];
      cursor := found.value.end;
      assert text[cursor..] == t[End(t, ss[k])..];
    }
    return Success(result);
  }

  method ReadEditableSections(text: string, configId: string) returns (r: Result<Updates, EditError>)
    ensures r.Success? <==> Manifest(configId).Some? && Found(text, Manifest(configId).value)
    ensures r.Success? ==> r.value == ByField(Manifest(configId).value, Get(text, Manifest(configId).value))
  {
    hide Manifest, Found, Get;
    if Manifest(configId).None? {
      return Failure(UnknownConfig);
    }
    var lists := ReadAll(text, Manifest(configId).value);
    if lists.Failure? {
      return Failure(NotFound(lists.error));
    }
    return Success(ByField(Manifest(configId).value, lists.value));
  }

  // Everything an edit has to pass, apart from reloading, which is asked of the new text.
  ghost predicate Acceptable(text: string, configId: string, updates: Updates) {
    && Manifest(configId).Some?
    && updates.Keys == Fields(Manifest(configId).value)
    && (forall field <- updates :: ValidItems(updates[field]))
    && Found(text, Manifest(configId).value)
  }

  // The text an edit leaves: the old one where there is nothing to splice the items into.
  function Edited(text: string, configId: string, updates: Updates): string {
    match Manifest(configId)
    case None => text
    case Some(ss) =>
      if updates.Keys == Fields(ss) && Found(text, ss) then Put(text, ss, InOrder(ss, Cleaned(updates))) else text
  }

  // Said of the items alone: every list was fine, and is answered trimmed.
  ghost predicate Answers(updates: Updates, answer: Updates) {
    && answer.Keys == updates.Keys
    && forall field <- updates :: FineItems(updates[field]) && TrimmedItems(updates[field], answer[field])
  }

  // Said of the texts: outside the sections' lists nothing changes; each list is one line per
  // item, indented as the old one was; and all of it reads back.
  ghost predicate Rewrites(before: string, after: string, configId: string, answer: Updates) {
    && Manifest(configId).Some?
    && var ss := Manifest(configId).value;
       && Found(before, ss) && Found(after, ss)
       && answer.Keys == Fields(ss)
       && Outside(after, ss) == Outside(before, ss)
       && ByField(ss, Get(after, ss)) == answer
       && forall k :: 0 <= k < |ss| ==> ss[k].field in answer && Lists(Inside(after, ss)[k], Indents(before, ss)[k], answer[ss[k].field])
  }

  lemma EditMeans(text: string, configId: string, updates: Updates)
    ensures (forall field <- updates :: ValidItems(updates[field])) <==> forall field <- updates :: FineItems(updates[field])
    ensures Acceptable(text, configId, updates) ==>
              Answers(updates, Cleaned(updates)) && Rewrites(text, Edited(text, configId, updates), configId, Cleaned(updates))
  {
    hide Manifest, Found, Get, Put, ByField, Outside, Inside, Indents, ValidItems, FineItems, TrimmedItems, Stripped, Lists, Print;
    forall field | field in updates
      ensures ValidItems(updates[field]) <==> FineItems(updates[field])
      ensures TrimmedItems(updates[field], Stripped(updates[field]))
    {
      ItemsMean(updates[field]);
    }
    if Acceptable(text, configId, updates) {
      var ss := Manifest(configId).value;
      var lists := InOrder(ss, Cleaned(updates));
      RoundTrip(text, configId, updates);
      ManifestIsSingleLine(configId);
      CleanLists(ss, updates);
      PutFrame(text, ss, lists);
      forall k | 0 <= k < |ss|
        ensures ss[k].field in updates
        ensures Lists(Inside(Edited(text, configId, updates), ss)[k], Indents(text, ss)[k], lists[k])
      {
        assert ss[k] in ss;
        PrintLists(Indents(text, ss)[k], lists[k]);
      }
    }
  }

  lemma CleanLists(ss: seq<Section>, updates: Updates)
    requires updates.Keys == Fields(ss) && forall field <- updates :: ValidItems(updates[field])
    ensures forall list <- InOrder(ss, Cleaned(updates)) :: AllClean(list)
  {
    var lists := InOrder(ss, Cleaned(updates));
    forall list | list in lists
      ensures AllClean(list)
    {
      var i :| 0 <= i < |lists| && list == lists[i];
      assert ss[i] in ss;
      ValidItemsAreClean(updates[ss[i].field]);
    }
  }

  // One configuration file, with the audit entries its edits have left.
  class ConfigFile {
    var text: string
    var entries: seq<Entry>

    // `parses` and `loads` say what the YAML parser and the guardrails library make of a
    // text, `installed` whether that library is there at all, and `auditable` whether the
    // audit log's lock can be had once the file is written.
    method WriteEditableSections(configId: string, updates: Updates, parses: string -> bool, installed: bool,
                                 loads: string -> bool, auditable: bool)
      returns (r: Result<Updates, EditError>)
      modifies this
      ensures r.Success? || r == Failure(AuditUnavailable) <==>
                && old(Acceptable(text, configId, updates))
                && parses(Edited(old(text), configId, updates)) && installed && loads(Edited(old(text), configId, updates))
      ensures r.Success? ==> auditable
      ensures r == Failure(AuditUnavailable) ==> !auditable
      ensures r.Success? ==>
                && text == Edited(old(text), configId, updates)
                && entries == old(entries) + [Entry(old(text), text)]
                && r.value == Cleaned(updates)
      ensures r.Success? ==> Answers(updates, r.value) && Rewrites(old(text), text, configId, r.value)
      ensures r == Failure(AuditUnavailable) ==>
                exists answer :: Answers(updates, answer) && Rewrites(old(text), text, configId, answer)
      ensures r.Failure? && r.error.InvalidItems? ==> exists field <- updates :: Judged(updates[field], Failure(r.error.itemError))
      ensures r == Failure(InvalidYaml) <==> old(Acceptable(text, configId, updates)) && !parses(Edited(old(text), configId, updates))
      ensures r == Failure(CannotValidate) <==>
                old(Acceptable(text, configId, updates)) && parses(Edited(old(text), configId, updates)) && !installed
      ensures r == Failure(ReloadFailed) <==>
                && old(Acceptable(text, configId, updates))
                && parses(Edited(old(text), configId, updates)) && installed && !loads(Edited(old(text), configId, updates))
      ensures r == Failure(UnknownConfig) <==> Manifest(configId).None?
      ensures r == Failure(WrongFields) <==> Manifest(configId).Some? && updates.Keys != Fields(Manifest(configId).value)
      ensures r.Failure? ==>
                && entries == old(entries)
                && text == if r.error.AuditUnavailable? then Edited(old(text), configId, updates) else old(text)
      ensures r != Failure(RoundTripMismatch)
    {
      EditMeans(text, configId, updates);
      hide Manifest, Found, Get, Put, Answers, Rewrites, Judged;
      if Manifest(configId).None? {
        return Failure(UnknownConfig);
      }
      var ss := Manifest(configId).value;
      if updates.Keys != Fields(ss) {
        return Failure(WrongFields);
      }
      var bad := ValidateUpdates(updates);
      if bad.Some? {
        return Failure(InvalidItems(bad.value));
      }
      var validated := Cleaned(updates);
      var spliced := SpliceAll(text, ss, InOrder(ss, validated));
      if spliced.Failure? {
        return Failure(NotFound(spliced.error));
      }
      if !parses(spliced.value) {
        return Failure(InvalidYaml);
      }
      RoundTrip(text, configId, updates);
      var reread := ReadAll(spliced.value, ss);
      if reread.Failure? || ByField(ss, reread.value) != validated {
        return Failure(RoundTripMismatch);
      }
      if !installed {
        return Failure(CannotValidate);
      }
      var original := text;
      text := spliced.value;
      if !loads(text) {
        text := original;
        return Failure(ReloadFailed);
      }
      if !auditable {
        return Failure(AuditUnavailable);
      }
      entries := entries + [Entry(original, text)];
      return Success(ByField(ss, reread.value));
    }
  }

  method ValidateUpdates(updates: Updates) returns (error: Option<ItemError>)
    ensures error.None? <==> forall field <- updates :: ValidItems(updates[field])
    ensures error.Some? ==> exists field <- updates :: Judged(updates[field], Failure(error.value))
  {
    hide Judged, ValidItems;
    var todo := updates.Keys;
    while todo != {}
      invariant todo <= updates.Keys
      invariant forall field <- updates.Keys - todo :: ValidItems(updates[field])
      decreases |todo|
    {
      var field :| field in todo;
      var r := ValidateItems(updates[field]);
      if r.Failure? {
        return Some(r.error);
      }
      todo := todo - {field};
    }
    return None;
  }

  lemma ValidItemsAreClean(items: seq<string>)
    requires ValidItems(items)
    ensures AllClean(Stripped(items))
  {
    forall item | item in Stripped(items)
      ensures Clean(item)
    {
      var i :| 0 <= i < |items| && item == Strip(items[i]);
      assert items[i] in items;
      RStripFacts(LStrip(items[i]));
    }
  }

  // An accepted edit, re-read, gives back exactly the validated items: the source's check
  // for a round-trip mismatch can never fire.
  lemma RoundTrip(text: string, configId: string, updates: Updates)
    ensures Acceptable(text, configId, updates) ==>
              var ss := Manifest(configId).value;
              var after := Edited(text, configId, updates);
              Found(after, ss) && ByField(ss, Get(after, ss)) == Cleaned(updates)
  {
    hide Manifest, Found, Get, Put, ByField;
    if !Acceptable(text, configId, updates) {
      return;
    }
    var ss := Manifest(configId).value;
    var lists := InOrder(ss, Cleaned(updates));
    CleanLists(ss, updates);
    ManifestIsSingleLine(configId);
    PutGet(text, ss, lists);
    ByFieldInOrder(ss, Cleaned(updates));
  }

  // Editing twice leaves the text the second edit alone would have left.
  lemma LaterEditWins(text: string, configId: string, first: Updates, second: Updates)
    ensures Acceptable(text, configId, first) && second.Keys == first.Keys ==>
              && Found(Edited(text, configId, first), Manifest(configId).value)
              && Edited(Edited(text, configId, first), configId, second) == Edited(text, configId, second)
  {
    hide Manifest, Found, Put;
    if !Acceptable(text, configId, first) || second.Keys != first.Keys {
      return;
    }
    var ss := Manifest(configId).value;
    var lists := InOrder(ss, Cleaned(first));
    CleanLists(ss, first);
    ManifestIsSingleLine(configId);
    PutPut(text, ss, lists, InOrder(ss, Cleaned(second)));
  }
}
