// Redacting matched spans of a text: sort, merge, splice (app/guardrails/output_leak.py and
// app/guardrails/prompt_injection.py, the latter with one token for everything), proved to
// do what a scan over the characters does.
module Redaction {
  import opened Wrappers

  // A match's half-open span of the text, and what is put in its place.
  datatype Span = Span(start: nat, end: nat, token: string)

  predicate InBounds(ms: seq<Span>, n: nat) {
    forall m <- ms :: m.start <= m.end <= n
  }

  // ----- Sort, merge, splice -----

  // The order of (start, end) pairs.
  predicate Less(a: Span, b: Span) {
    a.start < b.start || (a.start == b.start && a.end < b.end)
  }

  // Inserts m in front of everything it is not behind of, which keeps sorting stable.
  function Insert(m: Span, ms: seq<Span>): seq<Span> {
    if ms == [] || !Less(ms[0], m) then [m] + ms else [ms[0]] + Insert(m, ms[1..])
  }

  function Sort(ms: seq<Span>): seq<Span> {
    if ms == [] then [] else Insert(ms[0], Sort(ms[1..]))
  }

  function Max(a: nat, b: nat): nat {
    if a >= b then a else b
  }

  function MergeFrom(cur: Span, rest: seq<Span>): (merged: seq<Span>)
    ensures merged != []
    decreases rest
  {
    if rest == [] then [cur]
    else if rest[0].start <= cur.end then MergeFrom(cur.(end := Max(cur.end, rest[0].end)), rest[1..])
    else [cur] + MergeFrom(rest[0], rest[1..])
  }

  function Merge(ordered: seq<Span>): seq<Span> {
    if ordered == [] then [] else MergeFrom(ordered[0], ordered[1..])
  }

  // Merged spans lie one behind the other from `cursor` on, inside the text.
  ghost predicate Spliceable(text: string, merged: seq<Span>, cursor: nat) {
    if merged == [] then cursor <= |text|
    else cursor <= merged[0].start <= merged[0].end && Spliceable(text, merged[1..], merged[0].end)
  }

  lemma {:induction false} SpliceableBound(text: string, merged: seq<Span>, cursor: nat)
    requires Spliceable(text, merged, cursor)
    ensures cursor <= |text|
    decreases merged
  {
    if merged != [] {
      SpliceableBound(text, merged[1..], merged[0].end);
    }
  }

  ghost function Splice(text: string, merged: seq<Span>, cursor: nat): string
    requires Spliceable(text, merged, cursor)
    decreases merged
  {
    if merged == [] then text[cursor..]
    else
      SpliceableBound(text, merged[1..], merged[0].end);
      text[cursor..merged[0].start] + merged[0].token + Splice(text, merged[1..], merged[0].end)
  }

  // ----- The reading by characters -----

  predicate Covered(ms: seq<Span>, i: nat) {
    exists m <- ms :: m.start <= i < m.end
  }

  // Among the spans that start at i, the shortest, and of those the first.
  function Earliest(ms: seq<Span>, i: nat): (best: Option<Span>)
    ensures best.None? <==> forall m <- ms :: m.start != i
    ensures best.Some? ==> best.value in ms && best.value.start == i && forall m <- ms :: m.start == i ==> best.value.end <= m.end
  {
    if ms == [] then None else
      assert forall m :: m in ms <==> m == ms[0] || m in ms[1..];
      Better(ms[0], Earliest(ms[1..], i), i)
  }

  function Better(m: Span, best: Option<Span>, i: nat): Option<Span> {
    if m.start == i && (best.Some? ==> m.end <= best.value.end) then Some(m) else best
  }

  // The first character from e on that no span covers.
  function RunEnd(ms: seq<Span>, e: nat, n: nat): (r: nat)
    requires e <= n
    ensures e <= r <= n
    decreases n - e
  {
    if e < n && Covered(ms, e) then RunEnd(ms, e + 1, n) else e
  }

  // Redaction character by character. Where a span starts, its token stands for the whole
  // covered run; every other character is kept. A touching span belongs to the run it
  // touches, which is why `Keep` does not ask again at the end of a run.
  function Scan(text: string, ms: seq<Span>, i: nat): string
    requires i <= |text|
    decreases |text| - i, 1
  {
    match Earliest(ms, i)
    case Some(m) => m.token + Keep(text, ms, RunEnd(ms, i, |text|))
    case None => Keep(text, ms, i)
  }

  function Keep(text: string, ms: seq<Span>, i: nat): string
    requires i <= |text|
    decreases |text| - i, 0
  {
    if i == |text| then "" else [text[i]] + Scan(text, ms, i + 1)
  }

  // ----- Sorting changes nothing the scan looks at -----

  ghost predicate Sorted(ms: seq<Span>) {
    forall i, j :: 0 <= i < j < |ms| ==> !Less(ms[j], ms[i])
  }

  lemma {:induction false} InsertFacts(m: Span, ms: seq<Span>)
    ensures forall x :: x in Insert(m, ms) <==> x == m || x in ms
    ensures Sorted(ms) ==> Sorted(Insert(m, ms))
  {
    if ms != [] && Less(ms[0], m) {
      var rest := ms[1..];
      InsertFacts(m, rest);
      assert ms == [ms[0]] + rest;
      if Sorted(ms) {
        assert Sorted(rest);
        forall j | 0 <= j < |Insert(m, rest)|
          ensures !Less(Insert(m, rest)[j], ms[0])
        {
          var x := Insert(m, rest)[j];
          assert x in Insert(m, rest);
          if x in rest {
            var k :| 0 <= k < |rest| && rest[k] == x;
            assert ms[k + 1] == x;
          }
        }
      }
    }
  }

  lemma {:induction false} SortFacts(ms: seq<Span>)
    ensures Sorted(Sort(ms))
    ensures forall x :: x in Sort(ms) <==> x in ms
  {
    if ms != [] {
      SortFacts(ms[1..]);
      InsertFacts(ms[0], Sort(ms[1..]));
      assert ms == [ms[0]] + ms[1..];
    }
  }

  // It does not matter on which side of a strictly smaller span another one stands.
  lemma {:induction false} InsertKeepsEarliest(m: Span, ms: seq<Span>, i: nat)
    ensures Earliest(Insert(m, ms), i) == Better(m, Earliest(ms, i), i)
  {
    if ms == [] || !Less(ms[0], m) {
      assert ([m] + ms)[1..] == ms;
    } else {
      InsertKeepsEarliest(m, ms[1..], i);
      assert Insert(m, ms)[1..] == Insert(m, ms[1..]);
    }
  }

  lemma {:induction false} SortKeepsEarliest(ms: seq<Span>, i: nat)
    ensures Earliest(Sort(ms), i) == Earliest(ms, i)
  {
    if ms != [] {
      SortKeepsEarliest(ms[1..], i);
      InsertKeepsEarliest(ms[0], Sort(ms[1..]), i);
    }
  }

  lemma {:induction false} SortKeepsRunEnd(ms: seq<Span>, e: nat, n: nat)
    requires e <= n
    ensures RunEnd(Sort(ms), e, n) == RunEnd(ms, e, n)
    decreases n - e
  {
    SortFacts(ms);
    if e < n && Covered(ms, e) {
      SortKeepsRunEnd(ms, e + 1, n);
    }
  }

  lemma {:induction false} SortKeepsScan(text: string, ms: seq<Span>, i: nat)
    requires i <= |text|
    ensures Scan(text, Sort(ms), i) == Scan(text, ms, i)
    ensures Keep(text, Sort(ms), i) == Keep(text, ms, i)
    decreases |text| - i
  {
    if i < |text| {
      SortKeepsScan(text, ms, i + 1);
    }
    SortKeepsEarliest(ms, i);
    SortKeepsRunEnd(ms, i, |text|);
    if RunEnd(ms, i, |text|) > i {
      SortKeepsScan(text, ms, RunEnd(ms, i, |text|));
    }
  }

  // ----- Where no span starts, characters are kept -----

  lemma {:induction false} KeepUpTo(text: string, ms: seq<Span>, i: nat, p: nat)
    requires i <= p <= |text|
    requires forall m <- ms :: m.start > i ==> m.start >= p
    ensures i < p ==> Keep(text, ms, i) == text[i..p] + Scan(text, ms, p)
    decreases p - i
  {
    if i + 1 < p {
      KeepUpTo(text, ms, i + 1, p);
      KeepOne(text, ms, i);
      hide Keep, Scan, Earliest;
      assert text[i..p] == [text[i]] + text[i + 1..p];
    } else if i < p {
      hide Scan, Earliest;
      assert text[i..p] == [text[i]];
    }
  }

  // A character where no span starts next to it is kept, and so is looked at the next.
  lemma KeepOne(text: string, ms: seq<Span>, i: nat)
    requires i < |text| && forall m <- ms :: m.start != i + 1
    ensures Keep(text, ms, i) == [text[i]] + Keep(text, ms, i + 1)
  {
    hide Covered, RunEnd;
  }

  // Spans that are over can be forgotten.
  lemma {:induction false} ForgetEnded(text: string, over: seq<Span>, ms: seq<Span>, i: nat)
    requires i <= |text| && forall m <- over :: m.start <= i && m.end <= i
    ensures Keep(text, over + ms, i) == Keep(text, ms, i)
    decreases |text| - i
  {
    if i < |text| {
      EarliestAfter(over, ms, i + 1);
      RunEndAfter(over, ms, i + 1, |text|);
      ForgetEnded(text, over, ms, i + 1);
      if RunEnd(ms, i + 1, |text|) > i + 1 {
        ForgetEnded(text, over, ms, RunEnd(ms, i + 1, |text|));
      }
    }
  }

  lemma {:induction false} EarliestAfter(over: seq<Span>, ms: seq<Span>, i: nat)
    requires forall m <- over :: m.start < i
    ensures Earliest(over + ms, i) == Earliest(ms, i)
  {
    if over == [] {
      assert over + ms == ms;
    } else {
      EarliestAfter(over[1..], ms, i);
      assert (over + ms)[1..] == over[1..] + ms;
    }
  }

  lemma {:induction false} RunEndAfter(over: seq<Span>, ms: seq<Span>, e: nat, n: nat)
    requires e <= n && forall m <- over :: m.end <= e
    ensures RunEnd(over + ms, e, n) == RunEnd(ms, e, n)
    decreases n - e
  {
    assert Covered(over + ms, e) <==> Covered(ms, e);
    if e < n && Covered(ms, e) {
      RunEndAfter(over, ms, e + 1, n);
    }
  }

  // ----- A merged span is exactly one run -----

  // `cur` is what the spans in `done` have been merged into.
  ghost predicate MergedInto(done: seq<Span>, cur: Span) {
    && done != []
    && done[0].start == cur.start && done[0].token == cur.token
    && cur.start <= cur.end
    && (forall m <- done :: cur.start <= m.start <= m.end <= cur.end)
    && (forall e :: cur.start <= e < cur.end ==> Covered(done, e))
  }

  lemma MergeOneMore(done: seq<Span>, cur: Span, m: Span)
    requires MergedInto(done, cur) && cur.start <= m.start <= cur.end && m.start <= m.end
    ensures MergedInto(done + [m], cur.(end := Max(cur.end, m.end)))
  {
    var more := done + [m];
    assert m in more;
    forall e | cur.start <= e < Max(cur.end, m.end)
      ensures Covered(more, e)
    {
      if e < cur.end {
        assert Covered(done, e);
        var d :| d in done && d.start <= e < d.end;
        assert d in more;
      }
    }
  }

  lemma {:induction false} EarliestOfSorted(ms: seq<Span>)
    requires ms != [] && Sorted(ms)
    ensures Earliest(ms, ms[0].start) == Some(ms[0])
  {
    if |ms| > 1 {
      var best := Earliest(ms[1..], ms[0].start);
      if best.Some? {
        var k :| 0 <= k < |ms[1..]| && ms[1..][k] == best.value;
        assert !Less(ms[k + 1], ms[0]);
      }
    }
  }

  // The run that begins with a merged span ends where it ends, if all else starts later.
  lemma {:induction false} RunEndOfMerged(ms: seq<Span>, e: nat, end: nat, n: nat)
    requires e <= end <= n
    requires forall i :: e <= i < end ==> Covered(ms, i)
    requires !Covered(ms, end)
    ensures RunEnd(ms, e, n) == end
    decreases end - e
  {
    if e < end {
      RunEndOfMerged(ms, e + 1, end, n);
    }
  }

  lemma SortedSuffix(done: seq<Span>, rest: seq<Span>)
    requires Sorted(done + rest)
    ensures Sorted(rest)
    ensures rest != [] ==> forall m <- rest :: m.start >= rest[0].start
    ensures done != [] && rest != [] ==> rest[0].start >= done[0].start
  {
    var ms := done + rest;
    forall i, j | 0 <= i < j < |rest|
      ensures !Less(rest[j], rest[i])
    {
      assert !Less(ms[|done| + j], ms[|done| + i]);
    }
    if done != [] && rest != [] {
      assert !Less(ms[|done|], ms[0]);
    }
  }

  lemma {:induction false} MergeIsScan(text: string, done: seq<Span>, cur: Span, rest: seq<Span>, cursor: nat)
    requires Sorted(done + rest) && InBounds(done + rest, |text|)
    requires MergedInto(done, cur) && cursor <= cur.start && cur.end <= |text|
    ensures Spliceable(text, MergeFrom(cur, rest), cursor)
    ensures Splice(text, MergeFrom(cur, rest), cursor) == text[cursor..cur.start] + Scan(text, done + rest, cur.start)
    decreases |rest|
  {
    hide Scan, Keep, Earliest, RunEnd, Covered;
    var ms := done + rest;
    SortedSuffix(done, rest);
    assert rest != [] ==> rest[0] in ms;
    if rest != [] && rest[0].start <= cur.end {
      MergeOneMore(done, cur, rest[0]);
      assert (done + [rest[0]]) + rest[1..] == ms;
      MergeIsScan(text, done + [rest[0]], cur.(end := Max(cur.end, rest[0].end)), rest[1..], cursor);
    } else {
      MergedRun(text, done, cur, rest);
      if rest == [] {
        KeepAll(text, cur.end);
      } else {
        AloneMerged(rest[0]);
        assert [rest[0]] + rest[1..] == rest;
        MergeIsScan(text, [rest[0]], rest[0], rest[1..], cur.end);
        NextRun(text, cur, rest, cursor);
      }
    }
  }

  // A gap of kept characters leads from one merged span to the next.
  lemma NextRun(text: string, cur: Span, rest: seq<Span>, cursor: nat)
    requires rest != [] && cursor <= cur.start <= cur.end < rest[0].start <= |text|
    requires forall m <- rest :: m.start >= rest[0].start
    requires Spliceable(text, MergeFrom(rest[0], rest[1..]), cur.end)
    requires Splice(text, MergeFrom(rest[0], rest[1..]), cur.end)
          == text[cur.end..rest[0].start] + Scan(text, rest, rest[0].start)
    ensures Spliceable(text, MergeFrom(cur, rest), cursor)
    ensures Splice(text, MergeFrom(cur, rest), cursor) == text[cursor..cur.start] + (cur.token + Keep(text, rest, cur.end))
  {
    hide Scan, Keep, Earliest, RunEnd, Covered;
    KeepUpTo(text, rest, cur.end, rest[0].start);
    assert MergeFrom(cur, rest)[1..] == MergeFrom(rest[0], rest[1..]);
  }

  lemma AloneMerged(m: Span)
    requires m.start <= m.end
    ensures MergedInto([m], m)
  {
    assert m in [m];
  }

  lemma {:induction false} KeepAll(text: string, i: nat)
    requires i <= |text|
    ensures Keep(text, [], i) == text[i..]
    decreases |text| - i
  {
    if i < |text| {
      KeepAll(text, i + 1);
    }
  }

  // A merged span with nothing more to merge: the scan puts its token and goes on behind it.
  lemma MergedRun(text: string, done: seq<Span>, cur: Span, rest: seq<Span>)
    requires Sorted(done + rest) && InBounds(done + rest, |text|)
    requires MergedInto(done, cur) && cur.end <= |text|
    requires rest != [] ==> rest[0].start > cur.end
    ensures Scan(text, done + rest, cur.start) == cur.token + Keep(text, rest, cur.end)
  {
    var ms := done + rest;
    EarliestOfSorted(ms);
    SortedSuffix(done, rest);
    forall i | cur.start <= i < cur.end
      ensures Covered(ms, i)
    {
      assert Covered(done, i);
      var d :| d in done && d.start <= i < d.end;
      assert d in ms;
    }
    assert !Covered(ms, cur.end);
    RunEndOfMerged(ms, cur.start, cur.end, |text|);
    ForgetEnded(text, done, rest, cur.end);
  }

  // ----- The operations -----

  // For every list of in-bounds spans, in any order, overlapping, touching, repeated or
  // empty: sort-merge-splice is the character scan.
  lemma SpliceIsScan(text: string, ms: seq<Span>)
    requires InBounds(ms, |text|)
    ensures Spliceable(text, Merge(Sort(ms)), 0)
    ensures Splice(text, Merge(Sort(ms)), 0) == Scan(text, ms, 0)
  {
    SortKeepsScan(text, ms, 0);
    SortFacts(ms);
    var ordered := Sort(ms);
    if ordered == [] {
      KeepAll(text, 0);
    } else {
      var first := ordered[0];
      assert first in ordered;
      AloneMerged(first);
      assert [first] + ordered[1..] == ordered;
      MergeIsScan(text, [first], first, ordered[1..], 0);
      KeepUpTo(text, ordered, 0, first.start);
    }
  }

  lemma NoSpans(text: string)
    ensures Scan(text, [], 0) == text
  {
    KeepAll(text, 0);
  }

  method MergeSpans(ms: seq<Span>) returns (merged: seq<Span>)
    ensures merged == Merge(Sort(ms))
  {
    var ordered := Sort(ms);
    merged := [];
    for i := 0 to |ordered|
      invariant i == 0 <==> merged == []
      invariant i > 0 ==> Merge(ordered) == merged[..|merged| - 1] + MergeFrom(merged[|merged| - 1], ordered[i..])
    {
      var m := ordered[i];
      assert i > 0 ==> ordered[i..][0] == m && ordered[i..][1..] == ordered[i + 1..];
      if merged != [] && m.start <= merged[|merged| - 1].end {
        var last := merged[|merged| - 1];
        merged := merged[..|merged| - 1] + [last.(end := Max(last.end, m.end))];
      } else {
        merged := merged + [m];
      }
    }
    assert ordered[|ordered|..] == [];
  }

  method RedactText(text: string, ms: seq<Span>) returns (redacted: string)
    requires InBounds(ms, |text|)
    ensures redacted == Scan(text, ms, 0)
  {
    hide Scan, MergeFrom, Sort;
    SpliceIsScan(text, ms);
    if ms == [] {
      NoSpans(text);
      return text;
    }
    var merged := MergeSpans(ms);
    redacted := "";
    var cursor: nat := 0;
    for i := 0 to |merged|
      invariant cursor <= |text|
      invariant Spliceable(text, merged[i..], cursor)
      invariant Scan(text, ms, 0) == redacted + Splice(text, merged[i..], cursor)
    {
      assert merged[i..][0] == merged[i] && merged[i..][1..] == merged[i + 1..];
      SpliceableBound(text, merged[i + 1..], merged[i].end);
      redacted := redacted + text[cursor..merged[i].start] + merged[i].token;
      cursor := merged[i].end;
    }
    redacted := redacted + text[cursor..];
  }

  // ----- What survives -----

  // The characters no span covers, in order.
  function Uncovered(text: string, ms: seq<Span>, i: nat): string
    requires i <= |text|
    decreases |text| - i
  {
    if i == |text| then ""
    else (if Covered(ms, i) then "" else [text[i]]) + Uncovered(text, ms, i + 1)
  }

  ghost predicate Blank(ms: seq<Span>) {
    forall m <- ms :: m.token == ""
  }

  lemma {:induction false} UncoveredFromRunEnd(text: string, ms: seq<Span>, i: nat)
    requires i <= |text|
    ensures Uncovered(text, ms, i) == Uncovered(text, ms, RunEnd(ms, i, |text|))
    decreases |text| - i
  {
    hide Covered;
    if i < |text| && Covered(ms, i) {
      UncoveredFromRunEnd(text, ms, i + 1);
    }
  }

  lemma {:induction false} RunEndUncovered(ms: seq<Span>, e: nat, n: nat)
    requires e <= n
    ensures RunEnd(ms, e, n) < n ==> !Covered(ms, RunEnd(ms, e, n))
    decreases n - e
  {
    hide Covered;
    if e < n && Covered(ms, e) {
      RunEndUncovered(ms, e + 1, n);
    }
  }

  // Tokens apart, exactly the uncovered characters survive, each once and in order.
  lemma {:induction false} KeepsExactlyUncovered(text: string, ms: seq<Span>, i: nat)
    requires i <= |text| && Blank(ms)
    requires i < |text| ==> !Covered(ms, i)
    ensures Keep(text, ms, i) == Uncovered(text, ms, i)
    decreases |text| - i
  {
    if i < |text| {
      var best := Earliest(ms, i + 1);
      UncoveredFromRunEnd(text, ms, i + 1);
      RunEndUncovered(ms, i + 1, |text|);
      if best.Some? {
        KeepsExactlyUncovered(text, ms, RunEnd(ms, i + 1, |text|));
      } else {
        assert Covered(ms, i + 1) ==> Covered(ms, i);
        KeepsExactlyUncovered(text, ms, i + 1);
      }
    }
  }

  lemma RedactionKeepsExactlyUncovered(text: string, ms: seq<Span>)
    requires Blank(ms)
    ensures Scan(text, ms, 0) == Uncovered(text, ms, 0)
  {
    UncoveredFromRunEnd(text, ms, 0);
    RunEndUncovered(ms, 0, |text|);
    if Earliest(ms, 0).Some? {
      KeepsExactlyUncovered(text, ms, RunEnd(ms, 0, |text|));
    } else {
      KeepsExactlyUncovered(text, ms, 0);
    }
  }

  // ----- One token for everything -----

  const REDACTION_TOKEN := "[REDACTED]"

  // The prompt-injection filter redacts bare spans, all with the same token.
  method RedactSpans(text: string, spans: seq<(nat, nat)>) returns (redacted: string)
    requires forall s <- spans :: s.0 <= s.1 <= |text|
    ensures redacted == Scan(text, seq(|spans|, i requires 0 <= i < |spans| => Span(spans[i].0, spans[i].1, REDACTION_TOKEN)), 0)
  {
    var ms := seq(|spans|, i requires 0 <= i < |spans| => Span(spans[i].0, spans[i].1, REDACTION_TOKEN));
    forall m | m in ms
      ensures m.start <= m.end <= |text|
    {
      var i :| 0 <= i < |ms| && ms[i] == m;
      assert spans[i] in spans;
    }
    redacted := RedactText(text, ms);
  }
}
