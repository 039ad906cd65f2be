// The append-and-trim log on top of the chain: one record call, as app/core/audit.py and
// app/core/guardrail_events.py both make it, and then the same calls step by step with any
// number of writers on any number of replicas under the log's lock.
module ChainLog {
  import opened Wrappers
  import opened HashChain
  import opened TamperEvidence

  function HashOf(line: Line): Option<Hash> {
    if Truthy(line.hash) then line.hash else None
  }

  function CountOf(checkpoint: Option<Checkpoint>): nat {
    if checkpoint.Some? then checkpoint.value.count else 0
  }

  function CheckpointHash(checkpoint: Option<Checkpoint>): Option<Hash> {
    if checkpoint.Some? then checkpoint.value.throughHash else None
  }

  // The file and its sidecar. A file that does not exist yet is an empty one.
  datatype Disk = Disk(lines: seq<Line>, checkpoint: Option<Checkpoint>)

  // How many lines a trim to `cap` drops.
  function Excess(lines: seq<Line>, cap: nat): nat {
    if |lines| <= cap then 0 else |lines| - cap
  }

  function Appended(d: Disk, payload: Payload): Disk {
    d.(lines := d.lines + [ChainedLine(PreviousHash(d.lines, d.checkpoint), payload)])
  }

  function Rewritten(d: Disk, cap: nat): Disk {
    d.(lines := d.lines[Excess(d.lines, cap)..])
  }

  function Checkpointed(d: Disk, throughHash: Option<Hash>, n: nat): Disk {
    d.(checkpoint := Some(Checkpoint(throughHash, CountOf(d.checkpoint) + n)))
  }

  // One record call from start to finish.
  function Recorded(d: Disk, payload: Payload, cap: nat): Disk {
    var a := Appended(d, payload);
    var n := Excess(a.lines, cap);
    if n == 0 then a else Checkpointed(Rewritten(a, cap), HashOf(a.lines[n - 1]), n)
  }

  // One record call, said of the fields alone: the entry holds the payload, its previous hash
  // is that of the last line, or failing that the checkpoint's, or the genesis hash; the file
  // keeps the last `cap` lines, and if that drops any, the checkpoint names the hash of the
  // last one dropped and counts them on top of those dropped before.
  ghost predicate Records(before: Disk, payload: Payload, cap: nat, entry: Line, after: Disk) {
    var all := before.lines + [entry];
    var n := if |all| <= cap then 0 else |all| - cap;
    var last := if before.lines == [] then None else before.lines[|before.lines| - 1].hash;
    var saved := if before.checkpoint == None then None else before.checkpoint.value.throughHash;
    var prev := if last != None && last != Some(Raw("")) then last.value
                else if saved != None && saved != Some(Raw("")) then saved.value
                else Genesis;
    && entry == Line(payload, Some(prev), Some(Digest(prev, payload)))
    && after.lines == all[n..]
    && (n == 0 ==> after.checkpoint == before.checkpoint)
    && (n > 0 ==>
          && after.checkpoint.Some?
          && after.checkpoint.value.throughHash == (if all[n - 1].hash == Some(Raw("")) then None else all[n - 1].hash)
          && after.checkpoint.value.count == n + if before.checkpoint == None then 0 else before.checkpoint.value.count)
  }

  class LogFile {
    var lines: seq<Line>
    var checkpoint: Option<Checkpoint>

    ghost function Contents(): Disk
      reads this
    {
      Disk(lines, checkpoint)
    }

    method WriteCheckpoint(throughHash: Option<Hash>, newlyTrimmed: nat)
      modifies this`checkpoint
      ensures Contents() == Checkpointed(old(Contents()), throughHash, newlyTrimmed)
    {
      var count := if checkpoint.Some? then checkpoint.value.count else 0;
      checkpoint := Some(Checkpoint(throughHash, count + newlyTrimmed));
    }

    method TrimIfNeeded(cap: nat)
      requires cap > 0
      modifies this
      ensures var n := Excess(old(lines), cap);
              Contents() == if n == 0 then old(Contents())
                            else Checkpointed(Rewritten(old(Contents()), cap), HashOf(old(lines)[n - 1]), n)
    {
      if |lines| <= cap {
        return;
      }
      var trimmed := lines[..|lines| - cap];
      lines := lines[|lines| - cap..];
      var last := trimmed[|trimmed| - 1];
      WriteCheckpoint(if Truthy(last.hash) then last.hash else None, |trimmed|);
    }

    method RecordEntry(payload: Payload, cap: nat) returns (entry: Line)
      requires cap > 0
      modifies this
      ensures Records(old(Contents()), payload, cap, entry, Contents())
      ensures Contents() == Recorded(old(Contents()), payload, cap)
      ensures entry == lines[|lines| - 1] == ChainedLine(PreviousHash(old(lines), old(checkpoint)), payload)
    {
      var prev := PreviousHash(lines, checkpoint);
      entry := ChainedLine(prev, payload);
      lines := lines + [entry];
      TrimIfNeeded(cap);
    }
  }

  // ----- Many writers -----

  type Writer = nat

  // Where a writer is inside its record call.
  datatype Phase =
    | Outside
    | Entered
    | Read(prev: Hash)
    | Wrote
    | Rewrote(throughHash: Option<Hash>, n: nat)
    | Finished

  // `all` is every line the log ever held and `dropped` how many of them have left the file:
  // the checkpoint was last written when `vouched` had, and a dying writer left `lost` of
  // them uncounted.
  datatype System = System(
    disk: Disk,
    holder: Option<Writer>,
    phases: map<Writer, Phase>,
    all: seq<Line>,
    dropped: nat,
    vouched: nat,
    lost: nat)

  datatype Action =
    | Acquire(w: Writer)
    | ReadPrevious(w: Writer)
    | Append(w: Writer, payload: Payload)
    | Trim(w: Writer, cap: nat)
    | SaveCheckpoint(w: Writer)
    | Release(w: Writer)
    | Die(w: Writer)

  function PhaseOf(s: System, w: Writer): Phase {
    if w in s.phases then s.phases[w] else Outside
  }

  function Initial(legacy: seq<Line>): System {
    System(Disk(legacy, None), None, map[], legacy, 0, 0, 0)
  }

  // The lock never expires under a writer that is still running: only a death frees it early.
  predicate Enabled(s: System, a: Action) {
    match a
    case Acquire(w) => PhaseOf(s, w).Outside? && s.holder.None?
    case ReadPrevious(w) => PhaseOf(s, w).Entered?
    case Append(w, _) => PhaseOf(s, w).Read?
    case Trim(w, cap) => PhaseOf(s, w).Wrote? && cap > 0
    case SaveCheckpoint(w) => PhaseOf(s, w).Rewrote?
    case Release(w) => PhaseOf(s, w).Finished?
    case Die(w) => !PhaseOf(s, w).Outside?
  }

  function Next(s: System, a: Action): System
    requires Enabled(s, a)
  {
    match a
    case Acquire(w) => s.(holder := Some(w), phases := s.phases[w := Entered])
    case ReadPrevious(w) => s.(phases := s.phases[w := Read(PreviousHash(s.disk.lines, s.disk.checkpoint))])
    case Append(w, payload) =>
      var line := ChainedLine(PhaseOf(s, w).prev, payload);
      s.(disk := s.disk.(lines := s.disk.lines + [line]), all := s.all + [line], phases := s.phases[w := Wrote])
    case Trim(w, cap) =>
      var n := Excess(s.disk.lines, cap);
      if n == 0 then s.(phases := s.phases[w := Finished])
      else s.(disk := Rewritten(s.disk, cap), dropped := s.dropped + n,
              phases := s.phases[w := Rewrote(HashOf(s.disk.lines[n - 1]), n)])
    case SaveCheckpoint(w) =>
      s.(disk := Checkpointed(s.disk, PhaseOf(s, w).throughHash, PhaseOf(s, w).n), vouched := s.dropped,
         phases := s.phases[w := Finished])
    case Release(w) => s.(holder := None, phases := s.phases[w := Outside])
    case Die(w) =>
      var gone := s.(holder := None, phases := s.phases[w := Outside]);
      if PhaseOf(s, w).Rewrote? then gone.(lost := s.lost + PhaseOf(s, w).n) else gone
  }

  function Execute(legacy: seq<Line>, actions: seq<Action>): Option<System> {
    if actions == [] then Some(Initial(legacy))
    else
      var s, a := Execute(legacy, actions[..|actions| - 1]), actions[|actions| - 1];
      if s.Some? && Enabled(s.value, a) then Some(Next(s.value, a)) else None
  }

  // A file from before the upgrade: no hashes anywhere. The empty file is one too.
  ghost predicate LegacyOnly(lines: seq<Line>) {
    forall i :: 0 <= i < |lines| ==> lines[i].hash.None? && lines[i].prev.None?
  }

  // The checkpoint hash that vouches for a file from which n lines have been dropped.
  function Anchor(all: seq<Line>, n: nat): Option<Hash>
    requires n <= |all|
  {
    if n == 0 then None else HashOf(all[n - 1])
  }

  ghost predicate Rewriting(s: System) {
    s.holder.Some? && PhaseOf(s, s.holder.value).Rewrote?
  }

  function Pending(s: System): nat {
    if s.holder.Some? && PhaseOf(s, s.holder.value).Rewrote? then PhaseOf(s, s.holder.value).n else 0
  }

  // The whole history is the legacy lines followed by one intact chain from the genesis hash.
  ghost predicate History(s: System, legacy: seq<Line>) {
    && |legacy| <= |s.all|
    && s.all[..|legacy|] == legacy
    && Intact(Genesis, s.all, |legacy|, |s.all|)
  }

  ghost predicate Exclusive(s: System) {
    forall w: Writer :: !PhaseOf(s, w).Outside? ==> s.holder == Some(w)
  }

  // What the writer inside the lock knows.
  ghost predicate InPhase(s: System, phase: Phase, legacy: seq<Line>)
    requires |legacy| <= |s.all| && s.dropped <= |s.all|
  {
    match phase
    case Read(prev) => prev == HashBefore(Genesis, s.all, |legacy|, |s.all|)
    case Wrote => |legacy| < |s.all|
    case Rewrote(h, n) => h == Anchor(s.all, s.dropped) && s.dropped > 0
    case _ => true
  }

  ghost predicate Invariant(s: System, legacy: seq<Line>) {
    && History(s, legacy)
    && Exclusive(s)
    && (s.holder.Some? ==> !PhaseOf(s, s.holder.value).Outside?)
    // The file is what is left of the history, and never trimmed empty.
    && s.dropped <= |s.all| && s.disk.lines == s.all[s.dropped..]
    && (s.dropped > 0 ==> |legacy| < |s.all| && s.dropped < |s.all|)
    && s.vouched <= s.dropped && CheckpointHash(s.disk.checkpoint) == Anchor(s.all, s.vouched)
    && (s.holder.Some? ==> InPhase(s, PhaseOf(s, s.holder.value), legacy))
    && CountOf(s.disk.checkpoint) + Pending(s) + s.lost == s.dropped
  }

  // Every line of the history has the hashes its place gives it.
  lemma HistoryLine(s: System, legacy: seq<Line>, i: nat)
    requires LegacyOnly(legacy) && History(s, legacy) && i < |s.all|
    ensures i < |legacy| ==> s.all[i].hash.None? && s.all[i].prev.None?
    ensures i >= |legacy| ==>
              && Chained(s.all[i])
              && HashOf(s.all[i]) == s.all[i].hash
              && s.all[i].hash.value.Digest?
              && s.all[i].hash.value == HashBefore(Genesis, s.all, |legacy|, i + 1)
  {
    if i < |legacy| {
      assert s.all[i] == legacy[i];
    } else {
      assert Follows(HashBefore(Genesis, s.all, |legacy|, i), s.all[i]);
    }
  }

  // The next entry will chain on to the end of the history, even in a damaged log.
  lemma PreviousIsEndOfHistory(s: System, legacy: seq<Line>)
    requires LegacyOnly(legacy) && Invariant(s, legacy)
    ensures PreviousHash(s.disk.lines, s.disk.checkpoint) == HashBefore(Genesis, s.all, |legacy|, |s.all|)
  {
    assert Anchor(s.all, s.vouched).Some? ==> s.vouched > |legacy| by {
      if 0 < s.vouched <= |legacy| {
        HistoryLine(s, legacy, s.vouched - 1);
      }
    }
    if s.disk.lines != [] {
      assert s.disk.lines[|s.disk.lines| - 1] == s.all[|s.all| - 1];
      HistoryLine(s, legacy, |s.all| - 1);
    }
  }

  lemma AppendKeepsInvariant(s: System, a: Action, legacy: seq<Line>)
    requires LegacyOnly(legacy) && Invariant(s, legacy) && Enabled(s, a) && a.Append?
    ensures Invariant(Next(s, a), legacy)
  {
    assert s.holder == Some(a.w);
    if |legacy| < |s.all| {
      HistoryLine(s, legacy, |s.all| - 1);
    }
    var line := ChainedLine(PhaseOf(s, a.w).prev, a.payload);
    IntactGrows(Genesis, s.all, |legacy|, line);
    assert Follows(HashBefore(Genesis, s.all, |legacy|, |s.all|), line);
    assert Next(s, a).all[..|legacy|] == legacy;
    assert Next(s, a).disk.lines == Next(s, a).all[s.dropped..];
  }

  lemma TrimKeepsInvariant(s: System, a: Action, legacy: seq<Line>)
    requires Invariant(s, legacy) && Enabled(s, a) && a.Trim?
    ensures Invariant(Next(s, a), legacy)
  {
    var n := Excess(s.disk.lines, a.cap);
    if n > 0 {
      RewriteKeepsInvariant(s, a.w, n, a.cap, legacy);
    }
  }

  lemma RewriteKeepsInvariant(s: System, w: Writer, n: nat, cap: nat, legacy: seq<Line>)
    requires Invariant(s, legacy) && Enabled(s, Trim(w, cap))
    requires n == Excess(s.disk.lines, cap) > 0
    ensures Invariant(Next(s, Trim(w, cap)), legacy)
  {
    var t := Next(s, Trim(w, cap));
    TrimmedSuffix(s.all, s.dropped, n);
    assert t.phases == s.phases[w := Rewrote(Anchor(t.all, t.dropped), n)];
    assert History(t, legacy);
  }

  lemma TrimmedSuffix(all: seq<Line>, dropped: nat, n: nat)
    requires 1 <= n && dropped + n <= |all|
    ensures all[dropped..][n..] == all[dropped + n..]
    ensures all[dropped..][n - 1] == all[dropped + n - 1]
  {
  }

  lemma SaveKeepsInvariant(s: System, a: Action, legacy: seq<Line>)
    requires LegacyOnly(legacy) && Invariant(s, legacy) && Enabled(s, a) && a.SaveCheckpoint?
    ensures Invariant(Next(s, a), legacy)
  {
    assert s.holder == Some(a.w);
    HistoryLine(s, legacy, s.dropped - 1);
  }

  lemma NextKeepsInvariant(s: System, a: Action, legacy: seq<Line>)
    requires LegacyOnly(legacy) && Invariant(s, legacy) && Enabled(s, a)
    ensures Invariant(Next(s, a), legacy)
  {
    match a
    case Append(_, _) => AppendKeepsInvariant(s, a, legacy);
    case Trim(_, _) => TrimKeepsInvariant(s, a, legacy);
    case SaveCheckpoint(_) => SaveKeepsInvariant(s, a, legacy);
    case ReadPrevious(w) => PreviousIsEndOfHistory(s, legacy); assert s.holder == Some(w);
    case Acquire(_) =>
    case Release(w) => assert s.holder == Some(w);
    case Die(w) => assert s.holder == Some(w);
  }

  lemma {:induction false} AlwaysInvariant(legacy: seq<Line>, actions: seq<Action>)
    requires LegacyOnly(legacy) && Execute(legacy, actions).Some?
    ensures Invariant(Execute(legacy, actions).value, legacy)
  {
    if actions == [] {
      assert legacy[..|legacy|] == legacy;
    } else {
      var init := actions[..|actions| - 1];
      AlwaysInvariant(legacy, init);
      NextKeepsInvariant(Execute(legacy, init).value, actions[|actions| - 1], legacy);
    }
  }

  // How many of the lines on disk are legacy lines.
  function LegacyOnDisk(s: System, legacy: seq<Line>): nat {
    if s.dropped >= |legacy| then 0 else |legacy| - s.dropped
  }

  // Anchors tell dropped prefixes apart once the chained part has been reached.
  lemma AnchorsDiffer(s: System, legacy: seq<Line>)
    requires LegacyOnly(legacy) && Invariant(s, legacy)
    ensures Anchor(s.all, s.vouched) == Anchor(s.all, s.dropped) <==> s.vouched == s.dropped || s.dropped <= |legacy|
    ensures s.dropped > |legacy| ==> Anchor(s.all, s.dropped) == Some(HashBefore(Genesis, s.all, |legacy|, s.dropped))
    ensures s.dropped > |legacy| ==> Anchor(s.all, s.dropped).value.Digest?
    ensures s.dropped <= |legacy| ==> Anchor(s.all, s.dropped) == None
  {
    if s.dropped > 0 {
      HistoryLine(s, legacy, s.dropped - 1);
    }
    if s.vouched > 0 {
      HistoryLine(s, legacy, s.vouched - 1);
    }
    if |legacy| < s.vouched < s.dropped {
      HashesDeepen(Genesis, s.all, |legacy|, s.vouched, s.dropped);
    }
  }

  lemma LegacyThenChained(s: System, legacy: seq<Line>)
    requires LegacyOnly(legacy) && Invariant(s, legacy)
    ensures forall i :: 0 <= i < |s.disk.lines| ==> (Chained(s.disk.lines[i]) <==> i >= LegacyOnDisk(s, legacy))
  {
    forall i | 0 <= i < |s.disk.lines|
      ensures Chained(s.disk.lines[i]) <==> i >= LegacyOnDisk(s, legacy)
    {
      HistoryLine(s, legacy, s.dropped + i);
    }
  }

  // What verification says of a reachable file: it is valid exactly when the checkpoint is
  // up to date or nothing but legacy lines was ever dropped, and then every line is counted
  // for what it is.
  lemma VerdictOf(s: System, legacy: seq<Line>, v: Verdict)
    requires LegacyOnly(legacy) && Invariant(s, legacy)
    requires Judges(v, s.disk.lines, CheckpointHash(s.disk.checkpoint))
    ensures v.valid <==> s.vouched == s.dropped || s.dropped <= |legacy|
    ensures v.valid ==> v.legacy == LegacyOnDisk(s, legacy) && v.verified == |s.disk.lines| - LegacyOnDisk(s, legacy)
  {
    var l := LegacyOnDisk(s, legacy);
    var lines, c := s.disk.lines, CheckpointHash(s.disk.checkpoint);
    IntactDrops(Genesis, s.all, |legacy|, s.dropped);
    LegacyThenChained(s, legacy);
    AnchorsDiffer(s, legacy);
    if c == Anchor(s.all, s.dropped) {
      assert Intact(Base(c), lines, l, |lines|);
      GenuineVerifies(lines, v, c, l);
    } else {
      assert lines[0] == s.all[s.dropped];
      assert Follows(HashBefore(Genesis, s.all, |legacy|, s.dropped), s.all[s.dropped]);
      StopsAt(lines, v, c, 0, 0);
    }
  }

  function Appends(actions: seq<Action>): nat {
    if actions == [] then 0
    else Appends(actions[..|actions| - 1]) + (if actions[|actions| - 1].Append? then 1 else 0)
  }

  // Nothing but appends adds to the history; without deaths the checkpoint keeps up.
  lemma {:induction false} HistoryGrowsByAppends(legacy: seq<Line>, actions: seq<Action>)
    requires Execute(legacy, actions).Some? && LegacyOnly(legacy)
    ensures |Execute(legacy, actions).value.all| == |legacy| + Appends(actions)
    ensures (forall a <- actions :: !a.Die?) ==>
              var s := Execute(legacy, actions).value;
              s.lost == 0 && (!Rewriting(s) ==> s.vouched == s.dropped) && (Rewriting(s) ==> s.vouched + Pending(s) == s.dropped)
  {
    if actions != [] {
      var init, a := actions[..|actions| - 1], actions[|actions| - 1];
      HistoryGrowsByAppends(legacy, init);
      AlwaysInvariant(legacy, init);
      AlwaysInvariant(legacy, actions);
      assert PhaseOf(Execute(legacy, init).value, a.w).Outside? || Execute(legacy, init).value.holder == Some(a.w);
    }
  }

  // For any writers, any interleaving, any caps and any legacy file to start from: as long
  // as no writer dies, the file verifies whenever nobody is between rewrite and checkpoint,
  // every line on it is counted for what it is, and no line goes missing.
  lemma LogAlwaysVerifies(legacy: seq<Line>, actions: seq<Action>, v: Verdict)
    requires LegacyOnly(legacy) && Execute(legacy, actions).Some?
    requires forall a <- actions :: !a.Die?
    requires !Rewriting(Execute(legacy, actions).value)
    requires var d := Execute(legacy, actions).value.disk; Judges(v, d.lines, CheckpointHash(d.checkpoint))
    ensures var s := Execute(legacy, actions).value;
            && v.valid
            && v.legacy == LegacyOnDisk(s, legacy) && v.legacy + v.verified == |s.disk.lines|
            && CountOf(s.disk.checkpoint) + |s.disk.lines| == |legacy| + Appends(actions)
            && CountOf(s.disk.checkpoint) <= |s.all| && s.disk.lines == s.all[CountOf(s.disk.checkpoint)..]
  {
    AlwaysInvariant(legacy, actions);
    HistoryGrowsByAppends(legacy, actions);
    VerdictOf(Execute(legacy, actions).value, legacy, v);
  }

  // Between rewrite and checkpoint a reader is told the truth only if no chained line has
  // left the file yet.
  lemma WindowVerdict(legacy: seq<Line>, actions: seq<Action>, v: Verdict)
    requires LegacyOnly(legacy) && Execute(legacy, actions).Some?
    requires forall a <- actions :: !a.Die?
    requires Rewriting(Execute(legacy, actions).value) && Pending(Execute(legacy, actions).value) > 0
    requires var d := Execute(legacy, actions).value.disk; Judges(v, d.lines, CheckpointHash(d.checkpoint))
    ensures v.valid <==> Execute(legacy, actions).value.dropped <= |legacy|
  {
    AlwaysInvariant(legacy, actions);
    HistoryGrowsByAppends(legacy, actions);
    VerdictOf(Execute(legacy, actions).value, legacy, v);
  }

  // ----- One record call on its own, and recovery from a death -----

  function CallActions(s: System, w: Writer, payload: Payload, cap: nat): seq<Action> {
    [Acquire(w), ReadPrevious(w), Append(w, payload), Trim(w, cap)]
    + (if |s.disk.lines| + 1 > cap then [SaveCheckpoint(w)] else [])
    + [Release(w)]
  }

  lemma ExecuteOne(legacy: seq<Line>, actions: seq<Action>, a: Action)
    requires Execute(legacy, actions).Some? && Enabled(Execute(legacy, actions).value, a)
    ensures Execute(legacy, actions + [a]) == Some(Next(Execute(legacy, actions).value, a))
  {
    assert (actions + [a])[..|actions|] == actions;
  }

  // Uninterrupted, the steps amount to one record call of the log file object.
  lemma CallIsRecord(legacy: seq<Line>, actions: seq<Action>, w: Writer, payload: Payload, cap: nat)
    requires Execute(legacy, actions).Some? && cap > 0
    requires var s := Execute(legacy, actions).value; s.holder.None? && PhaseOf(s, w).Outside?
    ensures var s := Execute(legacy, actions).value;
            var after := Execute(legacy, actions + CallActions(s, w, payload, cap));
            && after.Some? && after.value.holder.None? && PhaseOf(after.value, w).Outside?
            && after.value.disk == Recorded(s.disk, payload, cap)
            && after.value.lost == s.lost
            && (if |s.disk.lines| >= cap then after.value.vouched == after.value.dropped == s.dropped + |s.disk.lines| + 1 - cap
                else after.value.vouched == s.vouched && after.value.dropped == s.dropped)
  {
    hide Execute;
    var s := Execute(legacy, actions).value;
    var a1 := actions + [Acquire(w)];
    ExecuteOne(legacy, actions, Acquire(w));
    var a2 := a1 + [ReadPrevious(w)];
    ExecuteOne(legacy, a1, ReadPrevious(w));
    var a3 := a2 + [Append(w, payload)];
    ExecuteOne(legacy, a2, Append(w, payload));
    assert Execute(legacy, a3).value.disk == Appended(s.disk, payload);
    var a4 := a3 + [Trim(w, cap)];
    ExecuteOne(legacy, a3, Trim(w, cap));
    CallEnds(legacy, a4, w);
    assert (if |s.disk.lines| + 1 > cap then a4 + [SaveCheckpoint(w)] else a4) + [Release(w)]
        == actions + CallActions(s, w, payload, cap);
  }

  // The end of a call that has just trimmed, or found nothing to trim.
  lemma CallEnds(legacy: seq<Line>, actions: seq<Action>, w: Writer)
    requires Execute(legacy, actions).Some?
    requires PhaseOf(Execute(legacy, actions).value, w).Rewrote? || PhaseOf(Execute(legacy, actions).value, w).Finished?
    ensures var s := Execute(legacy, actions).value;
            var phase := PhaseOf(s, w);
            var end := Execute(legacy, (if phase.Rewrote? then actions + [SaveCheckpoint(w)] else actions) + [Release(w)]);
            && end.Some? && end.value.holder.None? && PhaseOf(end.value, w).Outside?
            && end.value.lost == s.lost && end.value.dropped == s.dropped
            && (phase.Finished? ==> end.value.disk == s.disk && end.value.vouched == s.vouched)
            && (phase.Rewrote? ==> end.value.disk == Checkpointed(s.disk, phase.throughHash, phase.n) && end.value.vouched == s.dropped)
  {
    hide Execute;
    var s := Execute(legacy, actions).value;
    if PhaseOf(s, w).Rewrote? {
      ExecuteOne(legacy, actions, SaveCheckpoint(w));
      ExecuteOne(legacy, actions + [SaveCheckpoint(w)], Release(w));
    } else {
      ExecuteOne(legacy, actions, Release(w));
    }
  }

  // Whatever deaths came before, an uninterrupted call leaves a file that verifies exactly
  // when it trims, or the file did before, or only legacy lines were ever dropped.
  lemma RecoveryCondition(legacy: seq<Line>, actions: seq<Action>, w: Writer, payload: Payload, cap: nat, v: Verdict)
    requires LegacyOnly(legacy) && Execute(legacy, actions).Some? && cap > 0
    requires var s := Execute(legacy, actions).value; s.holder.None? && PhaseOf(s, w).Outside?
    requires var d := Recorded(Execute(legacy, actions).value.disk, payload, cap);
             Judges(v, d.lines, CheckpointHash(d.checkpoint))
    ensures var s := Execute(legacy, actions).value;
            v.valid <==> |s.disk.lines| >= cap || s.vouched == s.dropped || s.dropped <= |legacy|
    ensures v.valid ==> v.legacy + v.verified == |Recorded(Execute(legacy, actions).value.disk, payload, cap).lines|
  {
    var s := Execute(legacy, actions).value;
    CallIsRecord(legacy, actions, w, payload, cap);
    AlwaysInvariant(legacy, actions + CallActions(s, w, payload, cap));
    VerdictOf(Execute(legacy, actions + CallActions(s, w, payload, cap)).value, legacy, v);
  }

  // Crash recovery: after a death between rewrite and checkpoint, the next completed call
  // with the same cap leaves a file that verifies again; only the lines that death left
  // uncounted stay uncounted.
  lemma CrashRecovery(legacy: seq<Line>, actions: seq<Action>, dead: Writer, w: Writer, payload: Payload, cap: nat, v: Verdict)
    requires LegacyOnly(legacy) && Execute(legacy, actions).Some?
    requires Enabled(Execute(legacy, actions).value, Trim(dead, cap))
    requires |Execute(legacy, actions).value.disk.lines| > cap
    requires var d := Recorded(Rewritten(Execute(legacy, actions).value.disk, cap), payload, cap);
             Judges(v, d.lines, CheckpointHash(d.checkpoint))
    ensures v.valid && v.legacy + v.verified == cap
    ensures var s := Execute(legacy, actions).value;
            var d := Recorded(Rewritten(s.disk, cap), payload, cap);
            CountOf(d.checkpoint) + |d.lines| + s.lost + (|s.disk.lines| - cap) == |s.all| + 1
  {
    hide Execute, History, HashBefore, Judges;
    var s := Execute(legacy, actions).value;
    AlwaysInvariant(legacy, actions);
    ExecuteOne(legacy, actions, Trim(dead, cap));
    ExecuteOne(legacy, actions + [Trim(dead, cap)], Die(dead));
    var crashed := actions + [Trim(dead, cap)] + [Die(dead)];
    var t := Execute(legacy, crashed).value;
    AlwaysInvariant(legacy, crashed);
    assert t.holder.None? && PhaseOf(t, w).Outside?;
    RecoveryCondition(legacy, crashed, w, payload, cap, v);
  }

  // ----- What the log holds -----

  // The payloads appended, in order.
  ghost function Payloads(actions: seq<Action>): seq<Payload> {
    if actions == [] then []
    else
      Payloads(actions[..|actions| - 1])
      + match actions[|actions| - 1] case Append(_, payload) => [payload] case _ => []
  }

  // In every run the history is the legacy lines and then one line for each payload appended,
  // in the order of the appends; the file is what follows the lines dropped.
  lemma {:induction false} LogHoldsWhatWasAppended(legacy: seq<Line>, actions: seq<Action>)
    requires LegacyOnly(legacy) && Execute(legacy, actions).Some?
    ensures var s, payloads := Execute(legacy, actions).value, Payloads(actions);
            && |s.all| == |legacy| + |payloads| && s.all[..|legacy|] == legacy
            && (forall i :: 0 <= i < |payloads| ==> s.all[|legacy| + i].payload == payloads[i])
            && s.dropped <= |s.all| && s.disk.lines == s.all[s.dropped..]
  {
    AlwaysInvariant(legacy, actions);
    if actions != [] {
      hide Enabled, Invariant, Next;
      var init, a := actions[..|actions| - 1], actions[|actions| - 1];
      LogHoldsWhatWasAppended(legacy, init);
      AppendsOnly(Execute(legacy, init).value, a);
    }
  }

  // An append puts one line with its payload behind the history; no other step touches it.
  lemma AppendsOnly(s: System, a: Action)
    requires Enabled(s, a)
    ensures a.Append? ==> Next(s, a).all[..|s.all|] == s.all && |Next(s, a).all| == |s.all| + 1
                          && Next(s, a).all[|s.all|].payload == a.payload
    ensures !a.Append? ==> Next(s, a).all == s.all
  {
  }

  ghost function RecordedAll(d: Disk, payloads: seq<Payload>, cap: nat): Disk {
    if payloads == [] then d
    else Recorded(RecordedAll(d, payloads[..|payloads| - 1], cap), payloads[|payloads| - 1], cap)
  }

  // Any payloads can be recorded one behind the other, by a writer that is not disturbed.
  lemma {:induction false} CallsInARow(legacy: seq<Line>, w: Writer, payloads: seq<Payload>, cap: nat) returns (actions: seq<Action>)
    requires cap > 0
    ensures Execute(legacy, actions).Some?
    ensures var s := Execute(legacy, actions).value;
            s.holder.None? && PhaseOf(s, w).Outside? && s.disk == RecordedAll(Disk(legacy, None), payloads, cap)
  {
    actions := [];
    if payloads != [] {
      var n := |payloads| - 1;
      var before := CallsInARow(legacy, w, payloads[..n], cap);
      CallIsRecord(legacy, before, w, payloads[n], cap);
      actions := before + CallActions(Execute(legacy, before).value, w, payloads[n], cap);
    }
  }
}
