// Burst-block alerts (app/auth/alerting.py): the in-memory tracker over whole runs.
module Alerting {
  import opened Wrappers

  datatype Guardrail = PromptInjection | OutputLeak

  type Counts = map<Guardrail, nat>

  function CountOf(counts: Counts, g: Guardrail): nat {
    if g in counts then counts[g] else 0
  }

  function Bumped(counts: Counts, g: Guardrail): Counts {
    counts[g := CountOf(counts, g) + 1]
  }

  function Total(counts: Counts): nat {
    CountOf(counts, PromptInjection) + CountOf(counts, OutputLeak)
  }

  datatype Settings = Settings(threshold: int, window: real, cooldown: real)

  datatype AlertDecision = AlertDecision(key: string, blockCount: nat, window: real, counts: Counts)

  datatype Bucket = Bucket(start: real, counts: Counts)
  datatype State = State(buckets: map<string, Bucket>, cooldownUntil: map<string, real>)

  const INITIAL := State(map[], map[])

  datatype Block = Block(key: string, guardrail: Guardrail, at: real)

  function BucketAfter(s: State, e: Block, cfg: Settings): Bucket {
    if e.key in s.buckets && e.at - s.buckets[e.key].start < cfg.window
    then s.buckets[e.key].(counts := Bumped(s.buckets[e.key].counts, e.guardrail))
    else Bucket(e.at, Bumped(map[], e.guardrail))
  }

  // A key that has never alerted is treated as cooling down until time 0.
  function CoolingUntil(s: State, key: string): real {
    if key in s.cooldownUntil then s.cooldownUntil[key] else 0.0
  }

  predicate Alerts(s: State, e: Block, cfg: Settings) {
    Total(BucketAfter(s, e, cfg).counts) >= cfg.threshold && e.at >= CoolingUntil(s, e.key)
  }

  function Step(s: State, e: Block, cfg: Settings): State {
    State(s.buckets[e.key := BucketAfter(s, e, cfg)],
          if Alerts(s, e, cfg) then s.cooldownUntil[e.key := e.at + cfg.cooldown] else s.cooldownUntil)
  }

  class AlertTracker {
    const cfg: Settings
    var state: State

    constructor (cfg: Settings)
      ensures this.cfg == cfg && state == INITIAL
    {
      this.cfg := cfg;
      state := INITIAL;
    }

    method RecordBlock(key: string, guardrail: Guardrail, now: real) returns (decision: Option<AlertDecision>)
      modifies this`state
      ensures state == Step(old(state), Block(key, guardrail, now), cfg)
      ensures decision.Some? <==> Alerts(old(state), Block(key, guardrail, now), cfg)
      ensures decision.Some? ==>
                var counts := state.buckets[key].counts;
                decision.value == AlertDecision(key, Total(counts), cfg.window, counts)
    {
      var b := if key in state.buckets then state.buckets[key] else Bucket(now, map[]);
      if now - b.start >= cfg.window {
        b := Bucket(now, map[]);
      }
      b := b.(counts := Bumped(b.counts, guardrail));
      state := state.(buckets := state.buckets[key := b]);
      var total := Total(b.counts);
      if total < cfg.threshold {
        return None;
      }
      if now < (if key in state.cooldownUntil then state.cooldownUntil[key] else 0.0) {
        return None;
      }
      state := state.(cooldownUntil := state.cooldownUntil[key := now + cfg.cooldown]);
      return Some(AlertDecision(key, total, cfg.window, b.counts));
    }
  }

  function After(run: seq<Block>, cfg: Settings): State {
    if run == [] then INITIAL else Step(After(run[..|run| - 1], cfg), run[|run| - 1], cfg)
  }

  // The last block of the run alerts.
  predicate LastAlerts(run: seq<Block>, cfg: Settings)
    requires run != []
  {
    Alerts(After(run[..|run| - 1], cfg), run[|run| - 1], cfg)
  }

  // History alone: the blocks of `key` in its current window, the first of which opened it.
  ghost function CurrentWindow(run: seq<Block>, key: string, window: real): seq<Block> {
    if run == [] then []
    else
      var w, e := CurrentWindow(run[..|run| - 1], key, window), run[|run| - 1];
      if e.key != key then w
      else if w != [] && e.at - w[0].at < window then w + [e]
      else [e]
  }

  ghost function CountIn(w: seq<Block>, g: Guardrail): nat {
    if w == [] then 0
    else CountIn(w[..|w| - 1], g) + (if w[|w| - 1].guardrail == g then 1 else 0)
  }

  lemma {:induction false} CountsPartition(w: seq<Block>)
    ensures CountIn(w, PromptInjection) + CountIn(w, OutputLeak) == |w|
  {
    if w != [] {
      CountsPartition(w[..|w| - 1]);
    }
  }

  // The tracker's bucket is exactly the history's current window.
  lemma {:induction false} BucketIsCurrentWindow(run: seq<Block>, key: string, cfg: Settings)
    ensures var w, bs := CurrentWindow(run, key, cfg.window), After(run, cfg).buckets;
            && (key in bs <==> w != [])
            && (key in bs ==> bs[key].start == w[0].at && forall g :: CountOf(bs[key].counts, g) == CountIn(w, g))
  {
    if run != [] {
      var init, e := run[..|run| - 1], run[|run| - 1];
      BucketIsCurrentWindow(init, key, cfg);
      var w := CurrentWindow(init, key, cfg.window);
      assert (w + [e])[..|w|] == w && [e][..0] == [];
    }
  }

  // When the key last alerted in the run.
  ghost function LastAlert(run: seq<Block>, key: string, cfg: Settings): Option<real> {
    if run == [] then None
    else if run[|run| - 1].key == key && LastAlerts(run, cfg) then Some(run[|run| - 1].at)
    else LastAlert(run[..|run| - 1], key, cfg)
  }

  lemma {:induction false} CooldownIsLastAlert(run: seq<Block>, key: string, cfg: Settings)
    ensures var last, until := LastAlert(run, key, cfg), After(run, cfg).cooldownUntil;
            && (key in until <==> last.Some?)
            && (last.Some? ==> until[key] == last.value + cfg.cooldown)
  {
    if run != [] {
      CooldownIsLastAlert(run[..|run| - 1], key, cfg);
    }
  }

  // Exactly when a block alerts, said of the history: its window meets the threshold, and
  // the key is out of its cooldown -- or has never alerted and the clock reads at least 0.
  lemma AlertsExactlyWhen(run: seq<Block>, cfg: Settings)
    requires run != []
    ensures var init, e := run[..|run| - 1], run[|run| - 1];
            var last := LastAlert(init, e.key, cfg);
            LastAlerts(run, cfg) <==>
              && |CurrentWindow(run, e.key, cfg.window)| >= cfg.threshold
              && e.at >= (if last.Some? then last.value + cfg.cooldown else 0.0)
  {
    var init, e := run[..|run| - 1], run[|run| - 1];
    BucketIsCurrentWindow(run, e.key, cfg);
    CountsPartition(CurrentWindow(run, e.key, cfg.window));
    CooldownIsLastAlert(init, e.key, cfg);
  }

  // What an alert reports: the blocks of the key's current window, guardrail by guardrail.
  lemma AlertReportsWindow(run: seq<Block>, cfg: Settings)
    requires run != [] && LastAlerts(run, cfg)
    ensures var e := run[|run| - 1];
            var counts, w := After(run, cfg).buckets[e.key].counts, CurrentWindow(run, e.key, cfg.window);
            && Total(counts) == |w| >= cfg.threshold
            && forall g :: CountOf(counts, g) == CountIn(w, g)
  {
    var e := run[|run| - 1];
    BucketIsCurrentWindow(run, e.key, cfg);
    CountsPartition(CurrentWindow(run, e.key, cfg.window));
  }

  // Two alerts for one key are at least one cooldown apart, anywhere in any run.
  lemma {:induction false} AlertsSpaced(run: seq<Block>, i: nat, j: nat, cfg: Settings)
    requires cfg.cooldown >= 0.0
    requires i < j < |run| && run[i].key == run[j].key
    requires LastAlerts(run[..i + 1], cfg) && LastAlerts(run[..j + 1], cfg)
    ensures run[j].at - run[i].at >= cfg.cooldown
  {
    var key := run[j].key;
    assert run[..j][..i + 1] == run[..i + 1];
    LastAlertSince(run[..j], i, key, cfg);
    assert run[..j + 1][..j] == run[..j];
    CooldownIsLastAlert(run[..j], key, cfg);
  }

  lemma {:induction false} LastAlertSince(run: seq<Block>, i: nat, key: string, cfg: Settings)
    requires cfg.cooldown >= 0.0
    requires i < |run| && run[i].key == key && LastAlerts(run[..i + 1], cfg)
    ensures LastAlert(run, key, cfg).Some? && LastAlert(run, key, cfg).value >= run[i].at
  {
    var init := run[..|run| - 1];
    if i == |run| - 1 {
      assert run[..i + 1] == run;
    } else {
      assert init[..i + 1] == run[..i + 1];
      LastAlertSince(init, i, key, cfg);
      CooldownIsLastAlert(init, key, cfg);
    }
  }

  // The limit of "outside cooldown always alerts": on an injected clock that reads below 0,
  // which the default monotonic one does not, a key that has never alerted stays silent.
  lemma SilentBeforeZero()
    ensures var run, cfg := [Block("k", OutputLeak, -1.0)], Settings(1, 300.0, 1800.0);
            |CurrentWindow(run, "k", 300.0)| >= cfg.threshold && LastAlert([], "k", cfg) == None && !LastAlerts(run, cfg)
  {
    AlertsExactlyWhen([Block("k", OutputLeak, -1.0)], Settings(1, 300.0, 1800.0));
    assert [Block("k", OutputLeak, -1.0)][..0] == [];
  }
}

// The replicated tracker: each replica counts a block, reads the shared counts, and claims
// the shared cooldown key with SET NX EX, in separate steps that interleave freely.
module AlertClaims {
  import opened Wrappers
  import opened Alerting

  datatype Phase = Idle | Counting | Claiming(counts: Counts)

  datatype Decision = Decision(at: real, counts: Counts)

  // One key's shared entries in Redis, whose clock is `now`, and what has been decided.
  datatype Shared = Shared(
    now: real,
    counts: Counts,
    countsExpire: real,
    claimExpires: Option<real>,
    phases: map<nat, Phase>,
    decisions: seq<Decision>)

  datatype Action =
    | Pass(time: real)
    | Count(replica: nat, guardrail: Guardrail)
    | Read(replica: nat)
    | Claim(replica: nat)

  const INITIAL := Shared(0.0, map[], 0.0, None, map[], [])

  function PhaseOf(s: Shared, r: nat): Phase {
    if r in s.phases then s.phases[r] else Idle
  }

  predicate Enabled(s: Shared, a: Action) {
    match a
    case Pass(time) => time >= 0.0
    case Count(r, _) => PhaseOf(s, r).Idle?
    case Read(r) => PhaseOf(s, r).Counting?
    case Claim(r) => PhaseOf(s, r).Claiming?
  }

  function Live(s: Shared): Counts {
    if s.now < s.countsExpire then s.counts else map[]
  }

  predicate Claimed(s: Shared) {
    s.claimExpires.Some? && s.now < s.claimExpires.value
  }

  function Next(s: Shared, a: Action, cfg: Settings): Shared
    requires Enabled(s, a)
  {
    match a
    case Pass(time) => s.(now := s.now + time)
    case Count(r, g) =>
      // HINCRBY and EXPIRE in one transaction: every block refreshes the window's expiry.
      s.(counts := Bumped(Live(s), g), countsExpire := s.now + cfg.window, phases := s.phases[r := Counting])
    case Read(r) =>
      s.(phases := s.phases[r := if Total(Live(s)) < cfg.threshold then Idle else Claiming(Live(s))])
    case Claim(r) =>
      if Claimed(s) then s.(phases := s.phases[r := Idle])
      else s.(claimExpires := Some(s.now + cfg.cooldown),
              phases := s.phases[r := Idle],
              decisions := s.decisions + [Decision(s.now, PhaseOf(s, r).counts)])
  }

  // The state reached by a schedule, if every action was enabled when taken.
  function Execute(schedule: seq<Action>, cfg: Settings): Option<Shared> {
    if schedule == [] then Some(INITIAL)
    else
      var s := Execute(schedule[..|schedule| - 1], cfg);
      var a := schedule[|schedule| - 1];
      if s.Some? && Enabled(s.value, a) then Some(Next(s.value, a, cfg)) else None
  }

  ghost predicate Spaced(ds: seq<Decision>, cooldown: real) {
    forall i, j :: 0 <= i < j < |ds| ==> ds[j].at - ds[i].at >= cooldown
  }

  // Every decision saw the threshold met, and the claim taken by the last one covers the
  // cooldown that follows it.
  ghost predicate Invariant(s: Shared, cfg: Settings) {
    && Spaced(s.decisions, cfg.cooldown)
    && (forall d <- s.decisions :: Total(d.counts) >= cfg.threshold && d.at <= s.now)
    && (forall r <- s.phases :: s.phases[r].Claiming? ==> Total(s.phases[r].counts) >= cfg.threshold)
    && (if s.decisions == [] then s.claimExpires == None
        else s.claimExpires == Some(s.decisions[|s.decisions| - 1].at + cfg.cooldown))
  }

  lemma SpacedGrows(ds: seq<Decision>, d: Decision, cooldown: real)
    requires cooldown >= 0.0 && Spaced(ds, cooldown)
    requires ds != [] ==> d.at >= ds[|ds| - 1].at + cooldown
    ensures Spaced(ds + [d], cooldown)
  {
  }

  lemma ClaimKeepsInvariant(s: Shared, r: nat, cfg: Settings)
    requires cfg.cooldown >= 0.0 && Invariant(s, cfg) && Enabled(s, Claim(r))
    ensures Invariant(Next(s, Claim(r), cfg), cfg)
  {
    hide Total, Spaced;
    assert PhaseOf(s, r) == s.phases[r];
    if !Claimed(s) {
      SpacedGrows(s.decisions, Decision(s.now, PhaseOf(s, r).counts), cfg.cooldown);
    }
  }

  lemma NextKeepsInvariant(s: Shared, a: Action, cfg: Settings)
    requires cfg.cooldown >= 0.0 && Invariant(s, cfg) && Enabled(s, a)
    ensures Invariant(Next(s, a, cfg), cfg)
  {
    hide Total, Bumped, CountOf, Spaced;
    if a.Claim? {
      ClaimKeepsInvariant(s, a.replica, cfg);
    }
  }

  // However the replicas interleave, decisions are at least one cooldown apart, and every
  // one of them saw the threshold met.
  lemma {:induction false} AtMostOneDecisionPerCooldown(schedule: seq<Action>, cfg: Settings)
    requires cfg.cooldown >= 0.0 && Execute(schedule, cfg).Some?
    ensures Invariant(Execute(schedule, cfg).value, cfg)
  {
    if schedule != [] {
      var init := schedule[..|schedule| - 1];
      AtMostOneDecisionPerCooldown(init, cfg);
      NextKeepsInvariant(Execute(init, cfg).value, schedule[|schedule| - 1], cfg);
    }
  }

  // ----- What is counted and what is decided, said of the schedule alone -----

  // The shared clock's reading.
  ghost function Clock(schedule: seq<Action>): real {
    if schedule == [] then 0.0
    else Clock(schedule[..|schedule| - 1]) + match schedule[|schedule| - 1] case Pass(time) => time case _ => 0.0
  }

  // The blocks counted since the last pause of a window or more between two of them, and when
  // the last of them was.
  ghost function Burst(schedule: seq<Action>, window: real): (seq<Guardrail>, real) {
    if schedule == [] then ([], 0.0)
    else
      var (burst, last) := Burst(schedule[..|schedule| - 1], window);
      match schedule[|schedule| - 1]
      case Count(_, g) =>
        var now := Clock(schedule);
        if burst != [] && now - last < window then (burst + [g], now) else ([g], now)
      case _ => (burst, last)
  }

  ghost function HowMany(gs: seq<Guardrail>, g: Guardrail): nat {
    if gs == [] then 0 else HowMany(gs[..|gs| - 1], g) + if gs[|gs| - 1] == g then 1 else 0
  }

  lemma {:induction false} AllCounted(gs: seq<Guardrail>)
    ensures HowMany(gs, PromptInjection) + HowMany(gs, OutputLeak) == |gs|
  {
    if gs != [] {
      AllCounted(gs[..|gs| - 1]);
    }
  }

  // The shared counts are those of the burst, and expire a window after its last block.
  lemma {:induction false} CountsAreBurst(schedule: seq<Action>, cfg: Settings)
    requires Execute(schedule, cfg).Some?
    ensures var s, (burst, last) := Execute(schedule, cfg).value, Burst(schedule, cfg.window);
            && s.now == Clock(schedule)
            && (forall g :: CountOf(s.counts, g) == HowMany(burst, g))
            && (if burst == [] then s.countsExpire == 0.0 && s.now >= 0.0 else s.countsExpire == last + cfg.window)
  {
    if schedule != [] {
      var init := schedule[..|schedule| - 1];
      CountsAreBurst(init, cfg);
      var burst := Burst(init, cfg.window).0;
      forall g: Guardrail, h: Guardrail
        ensures HowMany(burst + [g], h) == HowMany(burst, h) + if g == h then 1 else 0
        ensures HowMany([g], h) == if g == h then 1 else 0
      {
        assert (burst + [g])[..|burst|] == burst && [g][..0] == [];
      }
    }
  }

  // A replica that reads the counts goes on to claim exactly if the burst is still within its
  // window and meets the threshold, and it has then seen the burst's counts.
  lemma ClaimsExactlyWhen(schedule: seq<Action>, r: nat, cfg: Settings)
    requires Execute(schedule, cfg).Some? && cfg.threshold >= 1
    requires Enabled(Execute(schedule, cfg).value, Read(r))
    ensures var s, (burst, last) := Execute(schedule, cfg).value, Burst(schedule, cfg.window);
            var p := PhaseOf(Next(s, Read(r), cfg), r);
            && (p.Claiming? <==> Clock(schedule) < last + cfg.window && |burst| >= cfg.threshold)
            && (!p.Claiming? ==> p.Idle?)
            && (p.Claiming? ==> forall g :: CountOf(p.counts, g) == HowMany(burst, g))
  {
    hide Execute, Burst;
    CountsAreBurst(schedule, cfg);
    AllCounted(Burst(schedule, cfg.window).0);
  }

  lemma LastIsLatest(ds: seq<Decision>, cooldown: real)
    requires ds != [] && cooldown >= 0.0 && Spaced(ds, cooldown)
    ensures forall d <- ds :: d.at <= ds[|ds| - 1].at
  {
    forall d | d in ds
      ensures d.at <= ds[|ds| - 1].at
    {
      var i :| 0 <= i < |ds| && ds[i] == d;
      assert i < |ds| - 1 ==> ds[|ds| - 1].at - ds[i].at >= cooldown;
    }
  }

  // A claim decides exactly if nothing was decided within the last cooldown, and then reports
  // the counts the replica has seen; either way the replica is idle again. Every other step
  // decides nothing.
  lemma DecidesExactlyWhen(schedule: seq<Action>, a: Action, cfg: Settings)
    requires Execute(schedule, cfg).Some? && cfg.cooldown >= 0.0
    requires Enabled(Execute(schedule, cfg).value, a)
    ensures var s := Execute(schedule, cfg).value;
            Next(s, a, cfg).decisions ==
              if a.Claim? && forall d <- s.decisions :: s.now >= d.at + cfg.cooldown
              then s.decisions + [Decision(s.now, PhaseOf(s, a.replica).counts)]
              else s.decisions
    ensures a.Claim? ==> PhaseOf(Next(Execute(schedule, cfg).value, a, cfg), a.replica).Idle?
  {
    AtMostOneDecisionPerCooldown(schedule, cfg);
    hide Execute, Invariant, Total, Live, Bumped, CountOf;
    ClaimedExactlyWhen(Execute(schedule, cfg).value, cfg);
  }

  lemma ClaimedExactlyWhen(s: Shared, cfg: Settings)
    requires cfg.cooldown >= 0.0 && Invariant(s, cfg)
    ensures !Claimed(s) <==> forall d <- s.decisions :: s.now >= d.at + cfg.cooldown
  {
    hide Total, Spaced;
    if s.decisions != [] {
      var last := s.decisions[|s.decisions| - 1];
      assert last in s.decisions;
      LastIsLatest(s.decisions, cfg.cooldown);
    }
  }

  lemma ExecuteStep(schedule: seq<Action>, a: Action, cfg: Settings)
    ensures Execute(schedule + [a], cfg) ==
              match Execute(schedule, cfg)
              case None => None
              case Some(s) => if Enabled(s, a) then Some(Next(s, a, cfg)) else None
  {
    assert (schedule + [a])[..|schedule|] == schedule;
  }

  // A replica that is idle can always count a block and read the counts, and if these meet the
  // threshold it can claim; if nothing was decided within the last cooldown, that is decided.
  lemma BlocksGetDecided(schedule: seq<Action>, r: nat, g: Guardrail, cfg: Settings)
    requires Execute(schedule, cfg).Some? && PhaseOf(Execute(schedule, cfg).value, r).Idle?
    requires cfg.window > 0.0 && cfg.cooldown >= 0.0
    ensures var s := Execute(schedule, cfg).value;
            var seen := Execute(schedule + [Count(r, g)] + [Read(r)], cfg);
            && seen.Some?
            && (var burst := Burst(schedule + [Count(r, g)], cfg.window).0;
                |burst| >= cfg.threshold && (forall d <- s.decisions :: s.now >= d.at + cfg.cooldown) ==>
                  var end := Execute(schedule + [Count(r, g)] + [Read(r)] + [Claim(r)], cfg);
                  end.Some? && end.value.decisions == s.decisions + [Decision(s.now, PhaseOf(seen.value, r).counts)])
  {
    hide Execute, Burst, Total;
    var counted := schedule + [Count(r, g)];
    ExecuteStep(schedule, Count(r, g), cfg);
    ExecuteStep(counted, Read(r), cfg);
    ExecuteStep(counted + [Read(r)], Claim(r), cfg);
    BurstCounted(schedule, r, g, cfg);
    if forall d <- Execute(schedule, cfg).value.decisions :: Execute(schedule, cfg).value.now >= d.at + cfg.cooldown {
      AtMostOneDecisionPerCooldown(schedule, cfg);
      var ds := Execute(schedule, cfg).value.decisions;
      assert ds != [] ==> ds[|ds| - 1] in ds;
    }
  }

  // Right after a count, what is live is the burst.
  lemma BurstCounted(schedule: seq<Action>, r: nat, g: Guardrail, cfg: Settings)
    requires Execute(schedule, cfg).Some? && PhaseOf(Execute(schedule, cfg).value, r).Idle? && cfg.window > 0.0
    ensures var s := Next(Execute(schedule, cfg).value, Count(r, g), cfg);
            Total(Live(s)) == |Burst(schedule + [Count(r, g)], cfg.window).0|
  {
    hide Execute, Burst;
    ExecuteStep(schedule, Count(r, g), cfg);
    CountsAreBurst(schedule + [Count(r, g)], cfg);
    AllCounted(Burst(schedule + [Count(r, g)], cfg.window).0);
  }

  // One replica counts n blocks of one guardrail and reads the counts after each.
  ghost function Blocks(r: nat, g: Guardrail, n: nat): seq<Action> {
    if n == 0 then [] else Blocks(r, g, n - 1) + [Count(r, g)] + [Read(r)]
  }

  lemma CountThenRead(schedule: seq<Action>, r: nat, g: Guardrail, cfg: Settings)
    requires Execute(schedule, cfg).Some? && PhaseOf(Execute(schedule, cfg).value, r).Idle?
    ensures var s := Execute(schedule, cfg).value;
            Execute(schedule + [Count(r, g)] + [Read(r)], cfg) == Some(Next(Next(s, Count(r, g), cfg), Read(r), cfg))
  {
    hide Execute, Live, Bumped, Total;
    ExecuteStep(schedule, Count(r, g), cfg);
    ExecuteStep(schedule + [Count(r, g)], Read(r), cfg);
  }

  // n blocks of one guardrail are counted, all at the start, and nothing is decided.
  ghost predicate Quiet(s: Shared, r: nat, g: Guardrail, n: nat, cfg: Settings) {
    && PhaseOf(s, r).Idle? && s.decisions == [] && s.claimExpires == None
    && s.now == 0.0 && s.countsExpire == (if n == 0 then 0.0 else cfg.window)
    && forall h :: CountOf(s.counts, h) == if h == g then n else 0
  }

  lemma OneMore(s: Shared, r: nat, g: Guardrail, n: nat, cfg: Settings)
    requires Quiet(s, r, g, n, cfg) && cfg.window > 0.0
    ensures var t := Next(Next(s, Count(r, g), cfg), Read(r), cfg);
            && (n + 1 < cfg.threshold ==> Quiet(t, r, g, n + 1, cfg))
            && (n + 1 >= cfg.threshold ==>
                  && Enabled(t, Claim(r)) && !Claimed(t) && t.decisions == []
                  && forall h :: CountOf(PhaseOf(t, r).counts, h) == if h == g then n + 1 else 0)
  {
    var counted := Next(s, Count(r, g), cfg);
    assert Live(counted) == counted.counts;
    assert Live(s) == if n == 0 then map[] else s.counts;
    forall h
      ensures CountOf(counted.counts, h) == if h == g then n + 1 else 0
    {
      assert CountOf(Live(s), h) == if h == g then n else 0;
    }
    assert Total(counted.counts) == n + 1;
  }

  // Nothing is decided while these stay below the threshold.
  lemma {:induction false} QuietBelowThreshold(r: nat, g: Guardrail, n: nat, cfg: Settings)
    requires n < cfg.threshold && cfg.window > 0.0
    ensures Execute(Blocks(r, g, n), cfg).Some? && Quiet(Execute(Blocks(r, g, n), cfg).value, r, g, n, cfg)
  {
    if n > 0 {
      QuietBelowThreshold(r, g, n - 1, cfg);
      CountThenRead(Blocks(r, g, n - 1), r, g, cfg);
      hide Execute, Next, CountOf;
      OneMore(Execute(Blocks(r, g, n - 1), cfg).value, r, g, n - 1, cfg);
    }
  }

  // The one that meets it is decided upon, and reports them all.
  lemma ThresholdDecides(r: nat, g: Guardrail, cfg: Settings)
    requires cfg.threshold >= 1 && cfg.window > 0.0
    ensures var end := Execute(Blocks(r, g, cfg.threshold) + [Claim(r)], cfg);
            && end.Some? && |end.value.decisions| == 1
            && forall h :: CountOf(end.value.decisions[0].counts, h) == if h == g then cfg.threshold else 0
  {
    var n := cfg.threshold - 1;
    QuietBelowThreshold(r, g, n, cfg);
    hide Execute, CountOf, Total, Bumped, Live;
    CountThenRead(Blocks(r, g, n), r, g, cfg);
    OneMore(Execute(Blocks(r, g, n), cfg).value, r, g, n, cfg);
    ExecuteStep(Blocks(r, g, cfg.threshold), Claim(r), cfg);
  }
}
