// Admin writes to many resources by many replicas, step by step: each takes its resource's
// lock, replaces the resource's file, and appends a before/after entry to the one audit log
// under the log's own lock, taken inside the first (app/core/audit.py,
// app/core/distributed_lock.py, app/auth/keys.py, app/guardrails/editable_config.py).
// What happens to the log file inside its lock is ChainLog's subject: here it is one step.
module AdminProtocol {
  import opened Wrappers

  type Writer = nat

  // ----- Resources and lock names -----

  datatype Resource = ApiKeys | PromptInjection | OutputLeak | GuardrailsConfig(id: string)

  const AUDIT_LOG := "audit_log"

  function ResourceType(r: Resource): string {
    match r
    case ApiKeys => "api_keys"
    case PromptInjection => "prompt_injection"
    case OutputLeak => "output_leak"
    case GuardrailsConfig(_) => "guardrails_config"
  }

  // The lock an edit of the resource takes.
  function EditLock(r: Resource): string {
    match r
    case GuardrailsConfig(id) => "guardrails_config:" + id
    case _ => ResourceType(r)
  }

  // The lock a revert takes, worked out from what the entry says it is about.
  function RevertLock(r: Resource): string {
    match r
    case GuardrailsConfig(id) => if id != "" then ResourceType(r) + ":" + id else ResourceType(r)
    case _ => ResourceType(r)
  }

  // Edits and reverts of a resource exclude each other unless its id is empty.
  lemma LocksAgree(r: Resource)
    ensures EditLock(r) == RevertLock(r) <==> r != GuardrailsConfig("")
  {
    if r.GuardrailsConfig? {
      assert "guardrails_config:" == "guardrails_config" + ":";
      assert |EditLock(r)| == 18 + |r.id|;
      if r.id != "" {
        assert RevertLock(r) == "guardrails_config" + ":" + r.id;
      } else {
        assert |RevertLock(r)| == 17;
      }
    }
  }

  // Different resources never share a lock, nor does any share the audit log's.
  lemma LocksDistinct(a: Resource, b: Resource)
    ensures EditLock(a) == EditLock(b) ==> a == b
    ensures EditLock(a) != AUDIT_LOG
  {
    assert forall r: Resource :: r.GuardrailsConfig? ==> EditLock(r)[0] == 'g';
    if a.GuardrailsConfig? && b.GuardrailsConfig? && EditLock(a) == EditLock(b) {
      assert a.id == EditLock(a)[18..] == EditLock(b)[18..] == b.id;
    }
    assert "api_keys"[1] == 'p' && AUDIT_LOG[1] == 'u';
  }

  // ----- Entries -----

  // `reverts` is the position of the entry a revert is of.
  datatype Entry = Entry(resource: Resource, before: string, after: string, reverts: Option<nat>)

  // What a resource's file holds after all these entries, starting from `origin`.
  function Current(origin: map<Resource, string>, es: seq<Entry>, r: Resource): string
    requires r in origin
  {
    if es == [] then origin[r]
    else if es[|es| - 1].resource == r then es[|es| - 1].after
    else Current(origin, es[..|es| - 1], r)
  }

  // Every entry of the resource starts from what the one before it left behind.
  predicate Gapless(origin: map<Resource, string>, es: seq<Entry>, r: Resource)
    requires r in origin
  {
    forall i :: 0 <= i < |es| && es[i].resource == r ==> es[i].before == Current(origin, es[..i], r)
  }

  lemma {:induction false} CurrentIsLastAfter(origin: map<Resource, string>, es: seq<Entry>, r: Resource, i: nat)
    requires r in origin && i < |es| && es[i].resource == r
    requires forall j :: i < j < |es| ==> es[j].resource != r
    ensures Current(origin, es, r) == es[i].after
  {
    if i < |es| - 1 {
      CurrentIsLastAfter(origin, es[..|es| - 1], r, i);
    }
  }

  lemma {:induction false} CurrentBeforeAnyEntry(origin: map<Resource, string>, es: seq<Entry>, r: Resource)
    requires r in origin && forall j :: 0 <= j < |es| ==> es[j].resource != r
    ensures Current(origin, es, r) == origin[r]
  {
    if es != [] {
      CurrentBeforeAnyEntry(origin, es[..|es| - 1], r);
    }
  }

  lemma CurrentAppend(origin: map<Resource, string>, es: seq<Entry>, e: Entry, r: Resource)
    requires r in origin
    ensures Current(origin, es + [e], r) == if e.resource == r then e.after else Current(origin, es, r)
    ensures Gapless(origin, es + [e], r) <==>
              Gapless(origin, es, r) && (e.resource == r ==> e.before == Current(origin, es, r))
  {
    var all := es + [e];
    assert all[..|es|] == es;
    assert forall i :: 0 <= i <= |es| ==> all[..i] == es[..i];
    if Gapless(origin, all, r) {
      forall i | 0 <= i < |es| && es[i].resource == r
        ensures es[i].before == Current(origin, es[..i], r)
      {
        assert all[i].before == Current(origin, all[..i], r);
      }
      assert e.resource == r ==> all[|es|].before == Current(origin, all[..|es|], r);
    }
  }

  // ----- The protocol -----

  // A revert has fetched its entry before it waits for any lock.
  datatype Job = Edit | Revert(entry: nat, text: string)

  datatype Phase =
    | Idle
    | Waiting(resource: Resource, job: Job)
    | Locked(resource: Resource, job: Job)
    | Snapshot(resource: Resource, job: Job, before: string)
    | Written(resource: Resource, job: Job, before: string, after: string)
    | Auditing(resource: Resource, job: Job, before: string, after: string)
    | Recorded(resource: Resource)
    | Leaving(resource: Resource)

  // `origin` holds the files at the start and `unrecorded` the resources changed without an
  // entry because the audit log's lock was unavailable; `dropped` entries have been trimmed.
  datatype System = System(
    origin: map<Resource, string>,
    files: map<Resource, string>,
    locks: map<string, Writer>,
    phases: map<Writer, Phase>,
    entries: seq<Entry>,
    dropped: nat,
    unrecorded: set<Resource>)

  datatype Action =
    | Begin(w: Writer, resource: Resource, job: Job)
    | AcquireResource(w: Writer)
    | ReadFile(w: Writer)
    | Refuse(w: Writer)
    | WriteFile(w: Writer, text: string)
    | RollBack(w: Writer)
    | AcquireAudit(w: Writer)
    | AuditUnavailable(w: Writer)
    | Record(w: Writer, cap: nat)
    | ReleaseAudit(w: Writer)
    | ReleaseResource(w: Writer)

  function Initial(files: map<Resource, string>): System {
    System(files, files, map[], map[], [], 0, {})
  }

  function PhaseOf(s: System, w: Writer): Phase {
    if w in s.phases then s.phases[w] else Idle
  }

  function LockOf(p: Phase): string
    requires p.Waiting?
  {
    if p.job.Edit? then EditLock(p.resource) else RevertLock(p.resource)
  }

  predicate Enabled(s: System, a: Action) {
    var p := PhaseOf(s, a.w);
    match a
    case Begin(_, r, job) =>
      && p.Idle? && r in s.files && r != GuardrailsConfig("")
      && (job.Revert? ==>
            && s.dropped <= job.entry < |s.entries|
            && s.entries[job.entry].resource == r && s.entries[job.entry].before == job.text)
    case AcquireResource(_) => p.Waiting? && LockOf(p) !in s.locks
    case ReadFile(_) => p.Locked? && p.resource in s.files
    case Refuse(_) => p.Snapshot? && p.job.Edit?
    case WriteFile(_, text) => p.Snapshot? && p.resource in s.files && (p.job.Revert? ==> text == p.job.text)
    case RollBack(_) => p.Written? && p.job.Edit? && p.resource.GuardrailsConfig? && p.resource in s.files
    case AcquireAudit(_) => p.Written? && AUDIT_LOG !in s.locks
    case AuditUnavailable(_) => p.Written?
    case Record(_, cap) => p.Auditing? && cap > 0
    case ReleaseAudit(_) => p.Recorded?
    case ReleaseResource(_) => p.Leaving?
  }

  function EntryOf(p: Phase): Entry
    requires p.Auditing?
  {
    Entry(p.resource, p.before, p.after, if p.job.Revert? then Some(p.job.entry) else None)
  }

  function Next(s: System, a: Action): System
    requires Enabled(s, a)
  {
    var p := PhaseOf(s, a.w);
    match a
    case Begin(w, r, job) => s.(phases := s.phases[w := Waiting(r, job)])
    case AcquireResource(w) =>
      s.(locks := s.locks[LockOf(p) := w], phases := s.phases[w := Locked(p.resource, p.job)])
    case ReadFile(w) => s.(phases := s.phases[w := Snapshot(p.resource, p.job, s.files[p.resource])])
    case Refuse(w) => s.(phases := s.phases[w := Leaving(p.resource)])
    case WriteFile(w, text) =>
      s.(files := s.files[p.resource := text], phases := s.phases[w := Written(p.resource, p.job, p.before, text)])
    case RollBack(w) =>
      s.(files := s.files[p.resource := p.before], phases := s.phases[w := Leaving(p.resource)])
    case AcquireAudit(w) =>
      s.(locks := s.locks[AUDIT_LOG := w], phases := s.phases[w := Auditing(p.resource, p.job, p.before, p.after)])
    case AuditUnavailable(w) =>
      s.(unrecorded := if p.before == p.after then s.unrecorded else s.unrecorded + {p.resource},
         phases := s.phases[w := Leaving(p.resource)])
    case Record(w, cap) =>
      s.(entries := s.entries + [EntryOf(p)],
         dropped := if |s.entries| + 1 - cap > s.dropped then |s.entries| + 1 - cap else s.dropped,
         phases := s.phases[w := Recorded(p.resource)])
    case ReleaseAudit(w) =>
      s.(locks := s.locks - {AUDIT_LOG}, phases := s.phases[w := Leaving(p.resource)])
    case ReleaseResource(w) =>
      s.(locks := s.locks - {EditLock(p.resource)}, phases := s.phases[w := Idle])
  }

  function Execute(s: System, schedule: seq<Action>): Option<System> {
    if schedule == [] then Some(s)
    else
      match Execute(s, schedule[..|schedule| - 1])
      case None => None
      case Some(before) =>
        var a := schedule[|schedule| - 1];
        if Enabled(before, a) then Some(Next(before, a)) else None
  }

  // ----- The invariant -----

  predicate HasLock(p: Phase) {
    !p.Idle? && !p.Waiting?
  }

  predicate HasAuditLock(p: Phase) {
    p.Auditing? || p.Recorded?
  }

  // The file is ahead of the log.
  predicate Ahead(p: Phase) {
    p.Written? || p.Auditing?
  }

  // A lock is held by exactly the writer that is inside it.
  ghost predicate Locking(s: System) {
    && (forall w | HasLock(PhaseOf(s, w)) :: EditLock(PhaseOf(s, w).resource) in s.locks && s.locks[EditLock(PhaseOf(s, w).resource)] == w)
    && (forall w | HasAuditLock(PhaseOf(s, w)) :: AUDIT_LOG in s.locks && s.locks[AUDIT_LOG] == w)
    && (forall name <- s.locks ::
          var p := PhaseOf(s, s.locks[name]);
          if name == AUDIT_LOG then HasAuditLock(p) else HasLock(p) && EditLock(p.resource) == name)
  }

  // What a writer has seen and written is still so.
  predicate PhaseSound(s: System, p: Phase) {
    && (!p.Idle? ==> p.resource in s.files && p.resource != GuardrailsConfig(""))
    && (p.Snapshot? ==> p.before == s.files[p.resource])
    && (Ahead(p) ==>
          && s.files[p.resource] == p.after
          && (p.resource !in s.unrecorded ==> p.resource in s.origin && p.before == Current(s.origin, s.entries, p.resource)))
    && ((p.Waiting? || p.Locked? || p.Snapshot? || Ahead(p)) && p.job.Revert? ==>
          && p.job.entry < |s.entries|
          && s.entries[p.job.entry].resource == p.resource && s.entries[p.job.entry].before == p.job.text
          && (Ahead(p) ==> p.after == p.job.text))
  }

  // Some writer has replaced the file and not yet recorded it.
  predicate Pending(s: System, r: Resource) {
    EditLock(r) in s.locks && Ahead(PhaseOf(s, s.locks[EditLock(r)]))
  }

  predicate ResourceSound(s: System, r: Resource)
    requires r in s.origin && r in s.files
  {
    && Gapless(s.origin, s.entries, r)
    && (!Pending(s, r) ==> s.files[r] == Current(s.origin, s.entries, r))
  }

  // A revert's entry says it restored what the reverted entry replaced.
  predicate RevertSound(es: seq<Entry>, j: nat)
    requires j < |es|
  {
    es[j].reverts.Some? ==>
      var i := es[j].reverts.value;
      i < j && es[i].resource == es[j].resource && es[j].after == es[i].before
  }

  ghost predicate Invariant(s: System) {
    && s.files.Keys == s.origin.Keys
    && Locking(s)
    && (forall w :: PhaseSound(s, PhaseOf(s, w)))
    && (forall r <- s.files.Keys - s.unrecorded :: ResourceSound(s, r))
    && (forall j: nat | j < |s.entries| :: RevertSound(s.entries, j))
  }

  lemma InitialInvariant(files: map<Resource, string>)
    ensures Invariant(Initial(files))
  {
  }

  lemma TakingFreeLock(s: System, t: System, w: Writer, name: string)
    requires Locking(s) && name !in s.locks && t.locks == s.locks[name := w]
    requires forall v | v != w :: PhaseOf(t, v) == PhaseOf(s, v)
    requires var p, q := PhaseOf(s, w), PhaseOf(t, w);
             && !HasAuditLock(p) && HasLock(q) && (HasLock(p) ==> p.resource == q.resource)
             && EditLock(q.resource) in t.locks && t.locks[EditLock(q.resource)] == w
             && (HasAuditLock(q) <==> name == AUDIT_LOG)
             && (name == AUDIT_LOG || name == EditLock(q.resource))
    ensures Locking(t)
  {
    hide EditLock, HasLock, HasAuditLock, PhaseOf;
  }

  lemma AcquiringKeepsLocking(s: System, a: Action)
    requires Invariant(s) && Enabled(s, a)
    requires a.AcquireResource? || a.AcquireAudit?
    ensures Locking(Next(s, a))
  {
    hide EditLock, RevertLock, ResourceSound, RevertSound, Current;
    var p := PhaseOf(s, a.w);
    assert PhaseSound(s, p);
    LocksAgree(p.resource);
    LocksDistinct(p.resource, p.resource);
    TakingFreeLock(s, Next(s, a), a.w, if a.AcquireAudit? then AUDIT_LOG else LockOf(p));
  }

  lemma ReleasingKeepsLocking(s: System, a: Action)
    requires Invariant(s) && Enabled(s, a)
    requires a.ReleaseResource? || a.ReleaseAudit?
    ensures Locking(Next(s, a))
  {
    hide EditLock, RevertLock, ResourceSound, RevertSound, PhaseSound;
    var p, t := PhaseOf(s, a.w), Next(s, a);
    LocksDistinct(p.resource, p.resource);
    assert forall w | w != a.w :: PhaseOf(t, w) == PhaseOf(s, w);
  }

  lemma SameLocks(s: System, t: System, w: Writer)
    requires Locking(s) && t.locks == s.locks
    requires forall v | v != w :: PhaseOf(t, v) == PhaseOf(s, v)
    requires var p, q := PhaseOf(s, w), PhaseOf(t, w);
             && HasLock(p) == HasLock(q) && HasAuditLock(p) == HasAuditLock(q) && (HasLock(p) ==> p.resource == q.resource)
    ensures Locking(t)
  {
    hide EditLock, HasLock, HasAuditLock, PhaseOf;
  }

  lemma WorkingKeepsLocking(s: System, a: Action)
    requires Invariant(s) && Enabled(s, a)
    requires !a.AcquireResource? && !a.AcquireAudit? && !a.ReleaseResource? && !a.ReleaseAudit?
    ensures Locking(Next(s, a))
  {
    hide EditLock, RevertLock, ResourceSound, RevertSound, PhaseSound, Locking;
    SameLocks(s, Next(s, a), a.w);
  }

  lemma NextKeepsLocking(s: System, a: Action)
    requires Invariant(s) && Enabled(s, a)
    ensures Locking(Next(s, a))
  {
    hide Invariant, Enabled, Next, Locking;
    match a {
      case AcquireResource(_) => AcquiringKeepsLocking(s, a);
      case AcquireAudit(_) => AcquiringKeepsLocking(s, a);
      case ReleaseResource(_) => ReleasingKeepsLocking(s, a);
      case ReleaseAudit(_) => ReleasingKeepsLocking(s, a);
      case _ => WorkingKeepsLocking(s, a);
    }
  }

  lemma ActorStaysSound(s: System, a: Action)
    requires Invariant(s) && Enabled(s, a)
    ensures PhaseSound(Next(s, a), PhaseOf(Next(s, a), a.w))
  {
    hide EditLock, RevertLock, Current, Gapless, RevertSound;
    var p := PhaseOf(s, a.w);
    assert PhaseSound(s, p);
    if p.Snapshot? && p.resource !in s.unrecorded {
      assert ResourceSound(s, p.resource) && !Pending(s, p.resource) by {
        assert p.resource in s.files.Keys - s.unrecorded;
      }
    }
  }

  lemma OthersStaySound(s: System, a: Action, w: Writer)
    requires Invariant(s) && Enabled(s, a) && w != a.w
    ensures PhaseSound(Next(s, a), PhaseOf(Next(s, a), w))
  {
    hide EditLock, RevertLock, Current, Gapless, ResourceSound, RevertSound, Pending;
    var p, q := PhaseOf(s, a.w), PhaseOf(s, w);
    assert PhaseSound(s, q) && PhaseSound(s, p);
    assert HasLock(p) && HasLock(q) ==> p.resource != q.resource;
    if a.Record? && Ahead(q) {
      if q.resource in s.origin {
        CurrentAppend(s.origin, s.entries, EntryOf(p), q.resource);
      }
    }
  }

  lemma NextKeepsResources(s: System, a: Action, r: Resource)
    requires Invariant(s) && Enabled(s, a)
    requires r in Next(s, a).files && r !in Next(s, a).unrecorded
    ensures r in s.origin && ResourceSound(Next(s, a), r)
  {
    hide EditLock, RevertLock, Current, Gapless;
    assert r in s.files.Keys - s.unrecorded && ResourceSound(s, r);
    var p := PhaseOf(s, a.w);
    assert PhaseSound(s, p);
    forall q: Resource
      ensures EditLock(r) == EditLock(q) ==> r == q
      ensures EditLock(r) != AUDIT_LOG
    {
      LocksDistinct(r, q);
    }
    if a.Record? {
      CurrentAppend(s.origin, s.entries, EntryOf(p), r);
    }
    if a.AcquireResource? {
      LocksAgree(p.resource);
    }
  }

  lemma NextKeepsInvariant(s: System, a: Action)
    requires Invariant(s) && Enabled(s, a)
    ensures Invariant(Next(s, a))
  {
    hide EditLock, RevertLock, Current, Gapless, Locking, PhaseSound, ResourceSound, RevertSound;
    NextKeepsLocking(s, a);
    forall w
      ensures PhaseSound(Next(s, a), PhaseOf(Next(s, a), w))
    {
      if w == a.w {
        ActorStaysSound(s, a);
      } else {
        OthersStaySound(s, a, w);
      }
    }
    forall r | r in Next(s, a).files.Keys - Next(s, a).unrecorded
      ensures r in s.origin && ResourceSound(Next(s, a), r)
    {
      NextKeepsResources(s, a, r);
    }
    NextKeepsKeys(s, a);
    forall j: nat | j < |Next(s, a).entries|
      ensures RevertSound(Next(s, a).entries, j)
    {
      NextKeepsReverts(s, a, j);
    }
  }

  lemma NextKeepsKeys(s: System, a: Action)
    requires Invariant(s) && Enabled(s, a)
    ensures Next(s, a).origin == s.origin && Next(s, a).files.Keys == s.origin.Keys
  {
    hide EditLock, RevertLock, Current, Gapless, Locking, ResourceSound, RevertSound;
    assert PhaseSound(s, PhaseOf(s, a.w));
  }

  lemma NextKeepsReverts(s: System, a: Action, j: nat)
    requires Invariant(s) && Enabled(s, a) && j < |Next(s, a).entries|
    ensures RevertSound(Next(s, a).entries, j)
  {
    hide EditLock, RevertLock, Current, Gapless, Locking, ResourceSound;
    assert j < |s.entries| ==> RevertSound(s.entries, j);
    assert PhaseSound(s, PhaseOf(s, a.w));
  }

  lemma {:induction false} AlwaysInvariant(files: map<Resource, string>, schedule: seq<Action>)
    requires Execute(Initial(files), schedule).Some?
    ensures Invariant(Execute(Initial(files), schedule).value)
    ensures Execute(Initial(files), schedule).value.origin == files
  {
    hide Invariant, Next, Enabled;
    if schedule == [] {
      InitialInvariant(files);
    } else {
      var n := |schedule| - 1;
      AlwaysInvariant(files, schedule[..n]);
      var s := Execute(Initial(files), schedule[..n]).value;
      NextKeepsInvariant(s, schedule[n]);
      NextKeepsKeys(s, schedule[n]);
    }
  }

  // ----- Results -----

  // In every reachable state: no two writers are inside the same resource, nor two in the log.
  lemma MutualExclusion(files: map<Resource, string>, schedule: seq<Action>, v: Writer, w: Writer)
    requires Execute(Initial(files), schedule).Some?
    ensures var s := Execute(Initial(files), schedule).value;
            var p, q := PhaseOf(s, v), PhaseOf(s, w);
            (HasLock(p) && HasLock(q) && p.resource == q.resource) || (HasAuditLock(p) && HasAuditLock(q)) ==> v == w
  {
    hide Execute, EditLock, ResourceSound, PhaseSound, RevertSound;
    AlwaysInvariant(files, schedule);
  }

  // In every reachable state, a resource all of whose writes were recorded has a history
  // without gaps: its first entry starts from the original file, every other from where the
  // one before it ended, and its file is what the last entry says unless a write is under way.
  lemma GaplessHistory(files: map<Resource, string>, schedule: seq<Action>, r: Resource)
    requires Execute(Initial(files), schedule).Some? && r in files
    requires r !in Execute(Initial(files), schedule).value.unrecorded
    ensures var s := Execute(Initial(files), schedule).value;
            && (forall i, j :: 0 <= i < j < |s.entries| && s.entries[i].resource == r && s.entries[j].resource == r
                  && (forall k :: i < k < j ==> s.entries[k].resource != r)
                  ==> s.entries[j].before == s.entries[i].after)
            && (forall j :: 0 <= j < |s.entries| && s.entries[j].resource == r
                  && (forall k :: 0 <= k < j ==> s.entries[k].resource != r)
                  ==> s.entries[j].before == files[r])
            && (forall i :: 0 <= i < |s.entries| && s.entries[i].resource == r && !Pending(s, r)
                  && (forall k :: i < k < |s.entries| ==> s.entries[k].resource != r)
                  ==> r in s.files && s.files[r] == s.entries[i].after)
  {
    hide Execute, EditLock, PhaseSound, RevertSound, Locking, Pending, Current;
    AlwaysInvariant(files, schedule);
    var s := Execute(Initial(files), schedule).value;
    assert r in s.files.Keys - s.unrecorded && ResourceSound(s, r);
    forall i, j | 0 <= i < j < |s.entries| && s.entries[i].resource == r && s.entries[j].resource == r
                  && (forall k :: i < k < j ==> s.entries[k].resource != r)
      ensures s.entries[j].before == s.entries[i].after
    {
      CurrentIsLastAfter(files, s.entries[..j], r, i);
    }
    forall j | 0 <= j < |s.entries| && s.entries[j].resource == r
               && (forall k :: 0 <= k < j ==> s.entries[k].resource != r)
      ensures s.entries[j].before == files[r]
    {
      CurrentBeforeAnyEntry(files, s.entries[..j], r);
    }
    forall i | 0 <= i < |s.entries| && s.entries[i].resource == r && !Pending(s, r)
               && (forall k :: i < k < |s.entries| ==> s.entries[k].resource != r)
      ensures s.files[r] == s.entries[i].after
    {
      CurrentIsLastAfter(files, s.entries, r, i);
    }
  }

  // In every reachable state: a revert restored what the entry it is of had replaced, and the
  // revert of a revert restored the text the first one replaced, which is what the file held
  // when that revert came.
  lemma RevertsRestore(files: map<Resource, string>, schedule: seq<Action>, j: nat)
    requires Execute(Initial(files), schedule).Some?
    requires var s := Execute(Initial(files), schedule).value;
             j < |s.entries| && s.entries[j].reverts.Some? && s.entries[j].resource in files
    ensures var s := Execute(Initial(files), schedule).value;
            var e := s.entries[j];
            var i := e.reverts.value;
            && i < j && s.entries[i].resource == e.resource && e.after == s.entries[i].before
            && (s.entries[i].reverts.Some? && e.resource !in s.unrecorded ==>
                  e.after == Current(files, s.entries[..i], e.resource))
  {
    hide Execute, EditLock, PhaseSound, Locking, Pending, Current;
    AlwaysInvariant(files, schedule);
    var s := Execute(Initial(files), schedule).value;
    assert RevertSound(s.entries, j);
    var r := s.entries[j].resource;
    if r !in s.unrecorded {
      assert r in s.files.Keys - s.unrecorded && ResourceSound(s, r);
    }
  }

  predicate Busy(s: System, w: Writer) {
    !PhaseOf(s, w).Idle?
  }

  // An action that brings its writer nearer to being done, failures not counted.
  ghost predicate Progress(s: System, a: Action) {
    Enabled(s, a) && Busy(s, a.w) && !a.AuditUnavailable? && !a.RollBack? && !a.Refuse?
  }

  lemma AuditHolderProgresses(s: System, w: Writer)
    requires HasAuditLock(PhaseOf(s, w))
    ensures exists a :: Progress(s, a)
  {
    if PhaseOf(s, w).Auditing? {
      assert Progress(s, Record(w, 1));
    } else {
      assert Progress(s, ReleaseAudit(w));
    }
  }

  // A writer that has the resource lock can go on, or else the one in the audit log can.
  lemma HolderProgresses(s: System, w: Writer)
    requires Invariant(s) && HasLock(PhaseOf(s, w))
    ensures exists a :: Progress(s, a)
  {
    hide EditLock, RevertLock, Current, ResourceSound, RevertSound, HasAuditLock;
    var p := PhaseOf(s, w);
    assert PhaseSound(s, p);
    match p {
      case Locked(_, _) => assert Progress(s, ReadFile(w));
      case Snapshot(_, job, _) => assert Progress(s, WriteFile(w, if job.Revert? then job.text else ""));
      case Written(_, _, _, _) =>
        if AUDIT_LOG !in s.locks {
          assert Progress(s, AcquireAudit(w));
        } else {
          assert HasAuditLock(PhaseOf(s, s.locks[AUDIT_LOG]));
          AuditHolderProgresses(s, s.locks[AUDIT_LOG]);
        }
      case Leaving(_) => assert Progress(s, ReleaseResource(w));
      case _ => AuditHolderProgresses(s, w);
    }
  }

  // No reachable state is a deadlock: while any writer is busy, some busy writer can take a
  // step that is not a failure.
  lemma NeverDeadlocked(files: map<Resource, string>, schedule: seq<Action>, w: Writer)
    requires Execute(Initial(files), schedule).Some?
    requires Busy(Execute(Initial(files), schedule).value, w)
    ensures exists a :: Progress(Execute(Initial(files), schedule).value, a)
  {
    hide Execute, EditLock, RevertLock, Current, Gapless, ResourceSound, RevertSound;
    AlwaysInvariant(files, schedule);
    var s := Execute(Initial(files), schedule).value;
    var p := PhaseOf(s, w);
    if !p.Waiting? {
      HolderProgresses(s, w);
    } else if LockOf(p) !in s.locks {
      assert Progress(s, AcquireResource(w));
    } else {
      assert PhaseSound(s, p);
      LocksAgree(p.resource);
      LocksDistinct(p.resource, p.resource);
      HolderProgresses(s, s.locks[LockOf(p)]);
    }
  }

  lemma ExecuteStep(s: System, schedule: seq<Action>, a: Action)
    ensures Execute(s, schedule + [a]) ==
              match Execute(s, schedule)
              case None => None
              case Some(before) => if Enabled(before, a) then Some(Next(before, a)) else None
  {
    assert (schedule + [a])[..|schedule|] == schedule;
  }

  // Wherever it happens, a write whose entry cannot be recorded, the audit log's lock being
  // unavailable, leaves its resource's history sound exactly if it did not change the file.
  lemma UnrecordedWriteLeavesGap(s: System, w: Writer)
    requires Invariant(s) && Enabled(s, AuditUnavailable(w))
    requires PhaseOf(s, w).resource !in s.unrecorded
    ensures var p := PhaseOf(s, w);
            var t := Next(s, AuditUnavailable(w));
            p.resource in t.origin && p.resource in t.files && (ResourceSound(t, p.resource) <==> p.before == p.after)
  {
    hide EditLock, RevertLock, Current, Gapless, RevertSound;
    var p, t := PhaseOf(s, w), Next(s, AuditUnavailable(w));
    assert PhaseSound(s, p);
    assert p.resource in s.files.Keys - s.unrecorded && ResourceSound(s, p.resource);
    assert t.locks == s.locks && t.files == s.files && t.entries == s.entries;
    assert s.locks[EditLock(p.resource)] == w && PhaseOf(t, w).Leaving?;
    assert !Pending(t, p.resource);
  }

  // The resource's history is sound after the first k steps of a run.
  ghost predicate SoundAfter(files: map<Resource, string>, schedule: seq<Action>, k: nat, r: Resource)
    requires k <= |schedule|
  {
    Execute(Initial(files), schedule[..k]).Some? ==>
      var s := Execute(Initial(files), schedule[..k]).value;
      r in s.origin && r in s.files && ResourceSound(s, r)
  }

  lemma SoundWhileRecorded(files: map<Resource, string>, schedule: seq<Action>, r: Resource)
    requires Execute(Initial(files), schedule).Some? && r in files
    requires r !in Execute(Initial(files), schedule).value.unrecorded
    ensures SoundAfter(files, schedule, |schedule|, r)
  {
    hide Execute, Locking, PhaseSound, ResourceSound, RevertSound;
    AlwaysInvariant(files, schedule);
    assert schedule[..|schedule|] == schedule;
    var s := Execute(Initial(files), schedule).value;
    assert r in s.files.Keys - s.unrecorded;
  }

  lemma UnrecordedGrows(s: System, a: Action, r: Resource)
    requires Enabled(s, a)
    ensures r in s.unrecorded ==> r in Next(s, a).unrecorded
    ensures r in Next(s, a).unrecorded && r !in s.unrecorded ==>
              var p := PhaseOf(s, a.w); a == AuditUnavailable(a.w) && p.Written? && p.resource == r && p.before != p.after
  {
  }

  // Over any run: a resource's history is sound throughout, at every step of the run, exactly
  // if no write that changed the resource's file went unrecorded.
  lemma {:induction false} SoundThroughoutExactlyWhen(files: map<Resource, string>, schedule: seq<Action>, r: Resource)
    requires Execute(Initial(files), schedule).Some? && r in files
    ensures r !in Execute(Initial(files), schedule).value.unrecorded
       <==> forall k: nat | k <= |schedule| :: SoundAfter(files, schedule, k, r)
  {
    hide SoundAfter, Enabled, Next, Invariant;
    if schedule == [] {
      SoundWhileRecorded(files, schedule, r);
    } else {
      var n := |schedule| - 1;
      var init, a := schedule[..n], schedule[n];
      var s := Execute(Initial(files), init).value;
      SoundThroughoutExactlyWhen(files, init, r);
      UnrecordedGrows(s, a, r);
      forall k: nat | k <= n
        ensures SoundAfter(files, schedule, k, r) == SoundAfter(files, init, k, r)
      {
        SoundAfterPrefix(files, schedule, n, k, r);
      }
      if r !in Next(s, a).unrecorded {
        SoundWhileRecorded(files, schedule, r);
      } else if r !in s.unrecorded {
        AlwaysInvariant(files, init);
        UnrecordedWriteLeavesGap(s, a.w);
        UnsoundAfter(files, schedule, r);
      }
    }
  }

  lemma SoundAfterPrefix(files: map<Resource, string>, schedule: seq<Action>, n: nat, k: nat, r: Resource)
    requires k <= n <= |schedule|
    ensures SoundAfter(files, schedule, k, r) == SoundAfter(files, schedule[..n], k, r)
  {
    assert schedule[..n][..k] == schedule[..k];
  }

  lemma UnsoundAfter(files: map<Resource, string>, schedule: seq<Action>, r: Resource)
    requires Execute(Initial(files), schedule).Some?
    requires var s := Execute(Initial(files), schedule).value;
             r in s.origin && r in s.files && !ResourceSound(s, r)
    ensures !SoundAfter(files, schedule, |schedule|, r)
  {
    assert schedule[..|schedule|] == schedule;
  }

  // The six steps in which that happens to an edit of the stored keys.
  function UnrecordedRun(w: Writer, text: string): seq<Action> {
    [] + [Begin(w, ApiKeys, Edit)] + [AcquireResource(w)] + [ReadFile(w)] + [WriteFile(w, text)]
    + [AuditUnavailable(w)] + [ReleaseResource(w)]
  }

  lemma UnrecordedRunEnds(w: Writer, before: string, after: string)
    ensures Execute(Initial(map[ApiKeys := before]), UnrecordedRun(w, after))
         == Some(System(map[ApiKeys := before], map[ApiKeys := after], map[], map[w := Idle], [], 0,
                        if before == after then {} else {ApiKeys}))
  {
    hide Execute, EditLock, RevertLock;
    LocksAgree(ApiKeys);
    var s0 := Initial(map[ApiKeys := before]);
    ExecuteNone(s0);
    var schedule: seq<Action> := [];
    ExecuteStep(s0, schedule, Begin(w, ApiKeys, Edit));
    schedule := schedule + [Begin(w, ApiKeys, Edit)];
    ExecuteStep(s0, schedule, AcquireResource(w));
    schedule := schedule + [AcquireResource(w)];
    ExecuteStep(s0, schedule, ReadFile(w));
    schedule := schedule + [ReadFile(w)];
    UnrecordedRunCloses(s0, schedule, w, after);
  }

  // From its snapshot on: the writer overwrites the file and leaves without an entry.
  lemma UnrecordedRunCloses(s0: System, schedule: seq<Action>, w: Writer, after: string)
    requires Execute(s0, schedule).Some?
    requires var s := Execute(s0, schedule).value;
             && s.locks == map[EditLock(ApiKeys) := w] && s.files.Keys == {ApiKeys} && s.unrecorded == {}
             && s.phases == map[w := Snapshot(ApiKeys, Edit, s.files[ApiKeys])]
    ensures var s := Execute(s0, schedule).value;
            Execute(s0, schedule + [WriteFile(w, after)] + [AuditUnavailable(w)] + [ReleaseResource(w)])
            == Some(s.(files := map[ApiKeys := after], locks := map[], phases := map[w := Idle],
                       unrecorded := if s.files[ApiKeys] == after then {} else {ApiKeys}))
  {
    hide Execute, Enabled, Next, EditLock;
    var s, next := Execute(s0, schedule).value, schedule;
    var before := s.files[ApiKeys];
    Overwrites(s, w, before, after);
    ExecuteStep(s0, next, WriteFile(w, after));
    next := next + [WriteFile(w, after)];
    GivesUp(Execute(s0, next).value, w, before, after);
    ExecuteStep(s0, next, AuditUnavailable(w));
    next := next + [AuditUnavailable(w)];
    Leaves(Execute(s0, next).value, w);
    ExecuteStep(s0, next, ReleaseResource(w));
  }

  lemma Overwrites(s: System, w: Writer, before: string, after: string)
    requires s.phases == map[w := Snapshot(ApiKeys, Edit, before)] && s.files.Keys == {ApiKeys}
    ensures Enabled(s, WriteFile(w, after))
    ensures Next(s, WriteFile(w, after))
         == s.(files := map[ApiKeys := after], phases := map[w := Written(ApiKeys, Edit, before, after)])
  {
    assert s.files[ApiKeys := after] == map[ApiKeys := after];
  }

  lemma GivesUp(s: System, w: Writer, before: string, after: string)
    requires s.phases == map[w := Written(ApiKeys, Edit, before, after)] && s.unrecorded == {}
    ensures Enabled(s, AuditUnavailable(w))
    ensures Next(s, AuditUnavailable(w))
         == s.(phases := map[w := Leaving(ApiKeys)], unrecorded := if before == after then {} else {ApiKeys})
  {
    assert s.unrecorded + {ApiKeys} == {ApiKeys};
  }

  lemma Leaves(s: System, w: Writer)
    requires s.phases == map[w := Leaving(ApiKeys)] && s.locks == map[EditLock(ApiKeys) := w]
    ensures Enabled(s, ReleaseResource(w))
    ensures Next(s, ReleaseResource(w)) == s.(phases := map[w := Idle], locks := map[])
  {
    hide EditLock;
    assert s.locks - {EditLock(ApiKeys)} == map[];
  }

  lemma ExecuteNone(s: System)
    ensures Execute(s, []) == Some(s)
  {
  }

  // ----- Work that nothing stands in the way of gets done -----

  // The steps of one edit or revert from beginning to end, with the text it writes.
  function Work(w: Writer, r: Resource, job: Job, text: string, cap: nat): seq<Action> {
    [] + [Begin(w, r, job)] + [AcquireResource(w)] + [ReadFile(w)] + [WriteFile(w, text)]
    + [AcquireAudit(w)] + [Record(w, cap)] + [ReleaseAudit(w)] + [ReleaseResource(w)]
  }

  // Nobody holds the locks needed, and the job is one that can be begun.
  ghost predicate Free(s: System, w: Writer, r: Resource, job: Job, text: string) {
    && PhaseOf(s, w).Idle? && EditLock(r) !in s.locks && AUDIT_LOG !in s.locks && Enabled(s, Begin(w, r, job))
    && (job.Revert? ==> text == job.text)
  }

  // What one step leaves of the state, seen from the writer.
  lemma WorkBegins(s: System, w: Writer, r: Resource, job: Job)
    requires Enabled(s, Begin(w, r, job)) && EditLock(r) !in s.locks
    ensures var t := Next(s, Begin(w, r, job));
            t == s.(phases := s.phases[w := Waiting(r, job)]) && Enabled(t, AcquireResource(w))
    ensures var u := Next(Next(s, Begin(w, r, job)), AcquireResource(w));
            u == s.(phases := s.phases[w := Locked(r, job)], locks := s.locks[EditLock(r) := w]) && Enabled(u, ReadFile(w))
  {
    LocksAgree(r);
    hide EditLock, RevertLock;
    var t := Next(s, Begin(w, r, job));
    assert t.phases[w := Locked(r, job)] == s.phases[w := Locked(r, job)];
  }

  lemma WorkWrites(s: System, w: Writer, r: Resource, job: Job, text: string)
    requires PhaseOf(s, w) == Locked(r, job) && w in s.phases && r in s.files && (job.Revert? ==> text == job.text)
    ensures Enabled(s, ReadFile(w)) && Enabled(Next(s, ReadFile(w)), WriteFile(w, text))
    ensures Next(Next(s, ReadFile(w)), WriteFile(w, text))
         == s.(phases := s.phases[w := Written(r, job, s.files[r], text)], files := s.files[r := text])
  {
  }

  lemma WorkRecords(s: System, w: Writer, r: Resource, job: Job, before: string, text: string, cap: nat)
    requires PhaseOf(s, w) == Written(r, job, before, text) && w in s.phases && AUDIT_LOG !in s.locks && cap > 0
    ensures Enabled(s, AcquireAudit(w)) && Enabled(Next(s, AcquireAudit(w)), Record(w, cap))
    ensures Next(Next(s, AcquireAudit(w)), Record(w, cap))
         == s.(phases := s.phases[w := Recorded(r)], locks := s.locks[AUDIT_LOG := w],
               entries := s.entries + [Entry(r, before, text, if job.Revert? then Some(job.entry) else None)],
               dropped := if |s.entries| + 1 - cap > s.dropped then |s.entries| + 1 - cap else s.dropped)
  {
  }

  lemma WorkLeaves(s: System, w: Writer, r: Resource)
    requires PhaseOf(s, w) == Recorded(r) && w in s.phases
    ensures Enabled(s, ReleaseAudit(w)) && Enabled(Next(s, ReleaseAudit(w)), ReleaseResource(w))
    ensures Next(Next(s, ReleaseAudit(w)), ReleaseResource(w))
         == s.(phases := s.phases[w := Idle], locks := s.locks - {AUDIT_LOG} - {EditLock(r)})
  {
    hide EditLock;
  }

  lemma ExecuteTwo(s: System, run: seq<Action>, a: Action, b: Action)
    requires Execute(s, run).Some? && Enabled(Execute(s, run).value, a) && Enabled(Next(Execute(s, run).value, a), b)
    ensures Execute(s, run + [a] + [b]) == Some(Next(Next(Execute(s, run).value, a), b))
  {
    hide Execute, Enabled, Next;
    ExecuteStep(s, run, a);
    ExecuteStep(s, run + [a], b);
  }

  lemma LastUpdateCounts<K, V>(m: map<K, V>, k: K, first: V, last: V)
    ensures m[k := first][k := last] == m[k := last]
  {
  }

  lemma AddedAndRemoved<K, V>(m: map<K, V>, k: K, v: V)
    requires k !in m
    ensures m[k := v] - {k} == m
  {
  }

  // The first half of the work: the file holds the new text, and its lock is still held.
  lemma WorkReachesFile(s: System, w: Writer, r: Resource, job: Job, text: string)
    requires Free(s, w, r, job, text)
    ensures r in s.files
    ensures Execute(s, [] + [Begin(w, r, job)] + [AcquireResource(w)] + [ReadFile(w)] + [WriteFile(w, text)]) ==
              Some(s.(phases := s.phases[w := Written(r, job, s.files[r], text)],
                      files := s.files[r := text],
                      locks := s.locks[EditLock(r) := w]))
  {
    BeginNeedsFile(s, w, r, job);
    hide Execute, EditLock, Enabled, Next;
    ExecuteNone(s);
    WorkBegins(s, w, r, job);
    var run: seq<Action> := [];
    ExecuteTwo(s, run, Begin(w, r, job), AcquireResource(w));
    run := run + [Begin(w, r, job)] + [AcquireResource(w)];
    var t := s.(phases := s.phases[w := Locked(r, job)], locks := s.locks[EditLock(r) := w]);
    assert Execute(s, run) == Some(t);
    hide Free;
    WorkWrites(t, w, r, job, text);
    ExecuteTwo(s, run, ReadFile(w), WriteFile(w, text));
    LastUpdateCounts(s.phases, w, Locked(r, job), Written(r, job, s.files[r], text));
  }

  // The second half, from wherever the first one left the state.
  lemma WorkReachesLog(s: System, run: seq<Action>, w: Writer, r: Resource, job: Job, before: string, text: string, cap: nat)
    requires Execute(s, run).Some? && AUDIT_LOG !in Execute(s, run).value.locks && cap > 0
    requires w in Execute(s, run).value.phases && Execute(s, run).value.phases[w] == Written(r, job, before, text)
    ensures var t := Execute(s, run).value;
            Execute(s, run + [AcquireAudit(w)] + [Record(w, cap)] + [ReleaseAudit(w)] + [ReleaseResource(w)]) ==
              Some(t.(phases := t.phases[w := Idle],
                      locks := t.locks - {EditLock(r)},
                      entries := t.entries + [Entry(r, before, text, if job.Revert? then Some(job.entry) else None)],
                      dropped := if |t.entries| + 1 - cap > t.dropped then |t.entries| + 1 - cap else t.dropped))
  {
    hide Execute, EditLock, Enabled, Next;
    var t := Execute(s, run).value;
    WorkRecords(t, w, r, job, before, text, cap);
    ExecuteTwo(s, run, AcquireAudit(w), Record(w, cap));
    var end := run + [AcquireAudit(w)] + [Record(w, cap)];
    WorkLeaves(Execute(s, end).value, w, r);
    ExecuteTwo(s, end, ReleaseAudit(w), ReleaseResource(w));
    LastUpdateCounts(t.phases, w, Recorded(r), Idle);
    AddedAndRemoved(t.locks, AUDIT_LOG, w);
  }

  // Any edit or revert that nothing stands in the way of runs to its end: the file then holds
  // the new text, one entry tells of it, of the last `cap` entries and those before them that
  // were still there all are kept, and everything else is as it was.
  lemma WorkGetsDone(s: System, w: Writer, r: Resource, job: Job, text: string, cap: nat)
    requires Free(s, w, r, job, text) && cap > 0
    ensures r in s.files
    ensures Execute(s, Work(w, r, job, text, cap)) ==
              Some(s.(phases := s.phases[w := Idle],
                      files := s.files[r := text],
                      entries := s.entries + [Entry(r, s.files[r], text, if job.Revert? then Some(job.entry) else None)],
                      dropped := if |s.entries| + 1 - cap > s.dropped then |s.entries| + 1 - cap else s.dropped))
  {
    LocksDistinct(r, r);
    hide Execute, EditLock, Enabled, Next;
    WorkReachesFile(s, w, r, job, text);
    var run := [] + [Begin(w, r, job)] + [AcquireResource(w)] + [ReadFile(w)] + [WriteFile(w, text)];
    var written := Execute(s, run).value;
    WorkReachesLog(s, run, w, r, job, s.files[r], text, cap);
    LastUpdateCounts(s.phases, w, Written(r, job, s.files[r], text), Idle);
    AddedAndRemoved(s.locks, EditLock(r), w);
  }

  lemma BeginNeedsFile(s: System, w: Writer, r: Resource, job: Job)
    requires Enabled(s, Begin(w, r, job))
    ensures r in s.files
  {
  }

  // A revert that has its lock goes through with its text and is not rolled back, nor is an
  // edit of anything but a guardrails configuration; an entry just recorded can be reverted.
  lemma StepsOfItsKind(s: System, a: Action)
    requires Enabled(s, a)
    ensures var p := PhaseOf(s, a.w);
            && (p.Snapshot? && p.job.Revert? ==> a == WriteFile(a.w, p.job.text))
            && (p.Written? && (p.job.Revert? || !p.resource.GuardrailsConfig?) ==> a.AcquireAudit? || a.AuditUnavailable?)
    ensures a.Record? && s.dropped <= |s.entries| ==> Next(s, a).dropped < |Next(s, a).entries|
  {
  }

  // A revert can be begun of exactly the entries that are still in the log.
  lemma RevertableExactlyWhen(s: System, w: Writer, i: nat)
    requires PhaseOf(s, w).Idle? && i < |s.entries|
    requires s.entries[i].resource in s.files && s.entries[i].resource != GuardrailsConfig("")
    ensures Enabled(s, Begin(w, s.entries[i].resource, Revert(i, s.entries[i].before))) <==> i >= s.dropped
  {
  }

  // An edit of a guardrails configuration that does not reload is undone: the file is as it
  // was, and no entry tells of it.
  lemma RollBackUndoes(s: System, w: Writer, id: string, before: string, after: string)
    requires PhaseOf(s, w) == Written(GuardrailsConfig(id), Edit, before, after) && GuardrailsConfig(id) in s.files
    ensures Enabled(s, RollBack(w))
    ensures var t := Next(s, RollBack(w));
            && t.files == s.files[GuardrailsConfig(id) := before] && t.entries == s.entries && PhaseOf(t, w).Leaving?
  {
  }
}
