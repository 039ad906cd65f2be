// The stored API keys and their admin operations (app/auth/keys.py), with the audit entries
// and reverts that go with them (app/core/audit.py).
module KeyAdmin {
  import opened Wrappers

  datatype Scope = KeysWrite | GuardrailsWrite | PromptInjectionWrite | OutputLeakWrite | MetricsRead | ActivityRead

  // `models` is None where the stored file has no list of models; `settings` is everything
  // that neither loading nor the guards below look at.
  datatype Record = Record(
    id: string,
    hash: string,
    models: Option<seq<string>>,
    isAdmin: bool,
    scopes: set<Scope>,
    settings: string)

  datatype Error = InvalidStore | KeyNotFound | KeyAlreadyExists | LastKeysWriteAdmin | EntryNotFound | AuditUnavailable

  // ----- Records and loading -----

  const ALL_SCOPES: set<Scope> := {KeysWrite, GuardrailsWrite, PromptInjectionWrite, OutputLeakWrite, MetricsRead, ActivityRead}

  function EffectiveScopes(r: Record): set<Scope> {
    if r.isAdmin then ALL_SCOPES else r.scopes
  }

  predicate HasKeysWrite(r: Record) {
    KeysWrite in EffectiveScopes(r)
  }

  predicate IsHex(c: char) {
    '0' <= c <= '9' || 'a' <= c <= 'f' || 'A' <= c <= 'F'
  }

  // 64 hexadecimal digits; the pattern's end anchor also lets a final newline through.
  predicate IsDigest(s: string) {
    && (|s| == 64 || (|s| == 65 && s[64] == '\n'))
    && forall i :: 0 <= i < 64 ==> IsHex(s[i])
  }

  function LowerChar(c: char): char {
    if 'A' <= c <= 'Z' then 'a' + (c - 'A') else c
  }

  function Lower(s: string): (r: string)
    ensures |r| == |s|
  {
    seq(|s|, i requires 0 <= i < |s| => LowerChar(s[i]))
  }

  predicate IsNormalDigest(s: string) {
    IsDigest(s) && Lower(s) == s
  }

  predicate RecordLoads(r: Record) {
    r.models.Some? && r.models.value != [] && IsDigest(r.hash)
  }

  function Normalized(keys: seq<Record>): (r: seq<Record>)
    ensures |r| == |keys|
  {
    seq(|keys|, i requires 0 <= i < |keys| => keys[i].(hash := Lower(keys[i].hash)))
  }

  predicate Unique(keys: seq<Record>) {
    forall i, j :: 0 <= i < j < |keys| ==> keys[i].id != keys[j].id && keys[i].hash != keys[j].hash
  }

  // The keys a stored file amounts to; None if it is refused.
  function Load(file: seq<Record>): Option<seq<Record>> {
    if (forall r <- file :: RecordLoads(r)) && Unique(Normalized(file)) then Some(Normalized(file)) else None
  }

  predicate HasWriter(keys: seq<Record>) {
    exists r <- keys :: HasKeysWrite(r)
  }

  // A store that loads and whose keys can still be managed through the admin API.
  predicate Healthy(file: seq<Record>) {
    Load(file).Some? && HasWriter(file)
  }

  // ----- Lookups -----

  // The last of several keys with the same hash, or id, wins.
  function ByHash(keys: seq<Record>): map<string, Record> {
    if keys == [] then map[] else ByHash(keys[..|keys| - 1])[keys[|keys| - 1].hash := keys[|keys| - 1]]
  }

  function ById(keys: seq<Record>): map<string, Record> {
    if keys == [] then map[] else ById(keys[..|keys| - 1])[keys[|keys| - 1].id := keys[|keys| - 1]]
  }

  class KeyStore {
    var byHash: map<string, Record>
    var byId: map<string, Record>

    constructor (keys: seq<Record>)
      ensures byHash == ByHash(keys) && byId == ById(keys)
    {
      byHash, byId := map[], map[];
      new;
      for i := 0 to |keys|
        invariant byHash == ByHash(keys[..i]) && byId == ById(keys[..i])
      {
        assert keys[..i + 1][..i] == keys[..i];
        byHash := byHash[keys[i].hash := keys[i]];
        byId := byId[keys[i].id := keys[i]];
      }
      assert keys[..|keys|] == keys;
    }

    method GetByHash(hash: string) returns (r: Option<Record>)
      ensures r.Some? <==> hash in byHash
      ensures r.Some? ==> r.value == byHash[hash]
    {
      r := if hash in byHash then Some(byHash[hash]) else None;
    }

    method GetById(id: string) returns (r: Option<Record>)
      ensures r.Some? <==> id in byId
      ensures r.Some? ==> r.value == byId[id]
    {
      r := if id in byId then Some(byId[id]) else None;
    }
  }

  // Looking any key up, either way, gives that key.
  predicate Consistent(keys: seq<Record>) {
    forall i :: 0 <= i < |keys| ==>
      && keys[i].hash in ByHash(keys) && ByHash(keys)[keys[i].hash] == keys[i]
      && keys[i].id in ById(keys) && ById(keys)[keys[i].id] == keys[i]
  }

  lemma {:induction false} LookupsAreKeys(keys: seq<Record>)
    ensures forall h <- ByHash(keys) :: ByHash(keys)[h] in keys && ByHash(keys)[h].hash == h
    ensures forall id <- ById(keys) :: ById(keys)[id] in keys && ById(keys)[id].id == id
    ensures forall r <- keys :: r.hash in ByHash(keys) && r.id in ById(keys)
  {
    if keys != [] {
      LookupsAreKeys(keys[..|keys| - 1]);
      assert keys == keys[..|keys| - 1] + [keys[|keys| - 1]];
    }
  }

  // The lookups are consistent exactly if ids and hashes are unique, records repeated whole
  // aside: and then each finds nothing but a key of the list.
  lemma LookupsConsistent(keys: seq<Record>)
    requires forall i, j :: 0 <= i < j < |keys| ==> keys[i] != keys[j]
    ensures Unique(keys) <==> Consistent(keys)
    ensures forall h <- ByHash(keys) :: ByHash(keys)[h] in keys && ByHash(keys)[h].hash == h
    ensures forall id <- ById(keys) :: ById(keys)[id] in keys && ById(keys)[id].id == id
  {
    hide ByHash, ById;
    LookupsAreKeys(keys);
    if Unique(keys) {
      forall i | 0 <= i < |keys|
        ensures ByHash(keys)[keys[i].hash] == keys[i] && ById(keys)[keys[i].id] == keys[i]
      {
        var j :| 0 <= j < |keys| && keys[j] == ByHash(keys)[keys[i].hash];
        var k :| 0 <= k < |keys| && keys[k] == ById(keys)[keys[i].id];
      }
    }
  }

  // ----- The operations on the stored keys -----

  // What a partial update names: a field left out is None. Null models are Some(None).
  datatype Fields = Fields(
    models: Option<Option<seq<string>>>,
    isAdmin: Option<bool>,
    scopes: Option<set<Scope>>,
    hash: Option<string>,
    settings: Option<string>)

  function Or<T>(update: Option<T>, current: T): T {
    if update.Some? then update.value else current
  }

  function WithFields(r: Record, f: Fields): Record {
    Record(r.id, Or(f.hash, r.hash), Or(f.models, r.models), Or(f.isAdmin, r.isAdmin), Or(f.scopes, r.scopes), Or(f.settings, r.settings))
  }

  function Find(keys: seq<Record>, id: string): (r: Option<nat>)
    ensures r.Some? ==> r.value < |keys| && keys[r.value].id == id
    ensures r.None? ==> forall k <- keys :: k.id != id
  {
    if keys == [] then None
    else if keys[0].id == id then Some(0)
    else
      match Find(keys[1..], id)
      case None => assert keys == [keys[0]] + keys[1..]; None
      case Some(i) => Some(i + 1)
  }

  predicate OthersHaveKeysWrite(keys: seq<Record>, id: string) {
    exists r <- keys :: r.id != id && HasKeysWrite(r)
  }

  predicate WouldStrand(existing: Record, keys: seq<Record>, id: string, updated: Record) {
    HasKeysWrite(existing) && !HasKeysWrite(updated) && !OthersHaveKeysWrite(keys, id)
  }

  function Replaced(keys: seq<Record>, id: string, updated: Record): (r: seq<Record>)
    ensures |r| == |keys|
  {
    seq(|keys|, i requires 0 <= i < |keys| => if keys[i].id == id then updated else keys[i])
  }

  function Removed(keys: seq<Record>, id: string): seq<Record> {
    if keys == [] then []
    else Removed(keys[..|keys| - 1], id) + if keys[|keys| - 1].id == id then [] else [keys[|keys| - 1]]
  }

  // Each operation's new file, or why it is refused.

  function Created(file: seq<Record>, record: Record): Result<seq<Record>, Error> {
    match Load(file)
    case None => Failure(InvalidStore)
    case Some(keys) =>
      if exists k <- keys :: k.id == record.id then Failure(KeyAlreadyExists)
      else if !Unique(keys + [record]) then Failure(InvalidStore)
      else Success(keys + [record])
  }

  function Updated(file: seq<Record>, id: string, f: Fields): Result<seq<Record>, Error> {
    match Load(file)
    case None => Failure(InvalidStore)
    case Some(keys) =>
      match Find(keys, id)
      case None => Failure(KeyNotFound)
      case Some(i) =>
        var updated := WithFields(keys[i], f);
        if WouldStrand(keys[i], keys, id, updated) then Failure(LastKeysWriteAdmin)
        else if !Unique(Replaced(keys, id, updated)) then Failure(InvalidStore)
        else Success(Replaced(keys, id, updated))
  }

  function Deleted(file: seq<Record>, id: string): Result<seq<Record>, Error> {
    match Load(file)
    case None => Failure(InvalidStore)
    case Some(keys) =>
      match Find(keys, id)
      case None => Failure(KeyNotFound)
      case Some(i) =>
        if HasKeysWrite(keys[i]) && !OthersHaveKeysWrite(keys, id) then Failure(LastKeysWriteAdmin)
        else Success(Removed(keys, id))
  }

  function NewHash(hash: string): Fields {
    Fields(None, None, None, Some(hash), None)
  }

  datatype Entry = Entry(before: seq<Record>, after: seq<Record>)

  // A revert writes the entry's `before` back as it is: there is no guard and no check.
  function Reverted(log: seq<Entry>, i: nat): Result<seq<Record>, Error> {
    if i < |log| then Success(log[i].before) else Failure(EntryNotFound)
  }

  datatype Operation =
    | Create(record: Record)
    | Update(id: string, fields: Fields)
    | Rotate(id: string, hash: string)
    | Delete(id: string)
    | Revert(entry: nat)

  datatype Admin = Admin(file: seq<Record>, log: seq<Entry>)

  function Outcome(s: Admin, op: Operation): Result<seq<Record>, Error> {
    match op
    case Create(record) => Created(s.file, record)
    case Update(id, f) => Updated(s.file, id, f)
    case Rotate(id, hash) => Updated(s.file, id, NewHash(hash))
    case Delete(id) => Deleted(s.file, id)
    case Revert(i) => Reverted(s.log, i)
  }

  // A refused operation changes nothing and is not recorded. An accepted one is recorded if
  // the audit log's lock can be had then; if not, the file stays written all the same.
  function Apply(s: Admin, op: Operation, auditable: bool): Admin {
    match Outcome(s, op)
    case Failure(_) => s
    case Success(file) => Admin(file, if auditable then s.log + [Entry(s.file, file)] else s.log)
  }

  function Problem(s: Admin, op: Operation, auditable: bool): Option<Error> {
    match Outcome(s, op)
    case Failure(e) => Some(e)
    case Success(_) => if auditable then None else Some(AuditUnavailable)
  }

  datatype Attempt = Attempt(op: Operation, auditable: bool)

  ghost function Run(s: Admin, attempts: seq<Attempt>): Admin {
    if attempts == [] then s
    else
      var a := attempts[|attempts| - 1];
      Apply(Run(s, attempts[..|attempts| - 1]), a.op, a.auditable)
  }

  lemma RunGoesOn(s: Admin, attempts: seq<Attempt>, a: Attempt)
    ensures Run(s, []) == s && Run(s, attempts + [a]) == Apply(Run(s, attempts), a.op, a.auditable)
  {
    assert (attempts + [a])[..|attempts|] == attempts;
  }

  // The problem an operation reports, if any.
  function ProblemOf<T>(r: Result<T, Error>): Option<Error> {
    if r.Failure? then Some(r.error) else None
  }

  // ----- Stranding, said of the stored fields alone -----

  // The key at i, if it may manage keys, is the only one that may.
  ghost predicate OnlyManager(file: seq<Record>, i: nat)
    requires i < |file|
  {
    && (file[i].isAdmin || KeysWrite in file[i].scopes)
    && forall j :: 0 <= j < |file| && file[j].id != file[i].id ==> !file[j].isAdmin && KeysWrite !in file[j].scopes
  }

  ghost predicate DeletionStrands(file: seq<Record>, id: string) {
    Load(file).Some? && exists i :: 0 <= i < |file| && file[i].id == id && OnlyManager(file, i)
  }

  ghost predicate UpdateStrands(file: seq<Record>, id: string, f: Fields) {
    && Load(file).Some?
    && exists i :: 0 <= i < |file| && file[i].id == id && OnlyManager(file, i)
        && !(if f.isAdmin.Some? then f.isAdmin.value else file[i].isAdmin)
        && KeysWrite !in (if f.scopes.Some? then f.scopes.value else file[i].scopes)
  }

  // An operation that writes records what it replaced and what it wrote, unless the audit
  // log's lock cannot be had: then it fails with the file written. Any other failure leaves
  // file and log as they were.
  ghost predicate Recorded<T>(before: Admin, after: Admin, auditable: bool, r: Result<T, Error>) {
    if r.Success? || r.error == AuditUnavailable then
      && (r.Success? <==> auditable)
      && after.log == if auditable then before.log + [Entry(before.file, after.file)] else before.log
    else after == before
  }

  class KeyFile {
    var file: seq<Record>
    var log: seq<Entry>

    ghost function State(): Admin
      reads this
    {
      Admin(file, log)
    }

    method PersistConfig(keys: seq<Record>, auditable: bool)
      modifies this
      ensures file == keys
      ensures log == if auditable then old(log) + [Entry(old(file), keys)] else old(log)
    {
      var before := file;
      file := keys;
      if auditable {
        log := log + [Entry(before, keys)];
      }
    }

    method CreateKey(record: Record, auditable: bool) returns (r: Result<Record, Error>)
      modifies this
      ensures Recorded(old(State()), State(), auditable, r)
      ensures State() == Apply(old(State()), Create(record), auditable)
      ensures ProblemOf(r) == Problem(old(State()), Create(record), auditable)
      ensures r.Success? ==> r.value == record
    {
      var keys := Load(file);
      if keys.None? {
        return Failure(InvalidStore);
      }
      if exists k <- keys.value :: k.id == record.id {
        return Failure(KeyAlreadyExists);
      }
      if !Unique(keys.value + [record]) {
        return Failure(InvalidStore);
      }
      PersistConfig(keys.value + [record], auditable);
      return if auditable then Success(record) else Failure(AuditUnavailable);
    }

    method UpdateKeyFields(id: string, f: Fields, auditable: bool) returns (r: Result<Record, Error>)
      modifies this
      ensures Recorded(old(State()), State(), auditable, r)
      ensures State() == Apply(old(State()), Update(id, f), auditable)
      ensures ProblemOf(r) == Problem(old(State()), Update(id, f), auditable)
      ensures r == Failure(LastKeysWriteAdmin) <==> UpdateStrands(old(file), id, f)
      ensures r.Success? ==>
                var keys := Load(old(file)).value;
                var at := Find(keys, id);
                at.Some? && r.value == WithFields(keys[at.value], f) && r.value in file
    {
      UpdateRefusedExactlyWhenStranding(file, id, f);
      var loaded := Load(file);
      if loaded.None? {
        return Failure(InvalidStore);
      }
      var keys := loaded.value;
      var at := Find(keys, id);
      if at.None? {
        return Failure(KeyNotFound);
      }
      var updated := WithFields(keys[at.value], f);
      if WouldStrand(keys[at.value], keys, id, updated) {
        return Failure(LastKeysWriteAdmin);
      }
      var newKeys := Replaced(keys, id, updated);
      if !Unique(newKeys) {
        return Failure(InvalidStore);
      }
      assert newKeys[at.value] == updated;
      PersistConfig(newKeys, auditable);
      return if auditable then Success(updated) else Failure(AuditUnavailable);
    }

    method RotateKey(id: string, hash: string, auditable: bool) returns (r: Result<Record, Error>)
      modifies this
      ensures Recorded(old(State()), State(), auditable, r)
      ensures State() == Apply(old(State()), Rotate(id, hash), auditable)
      ensures ProblemOf(r) == Problem(old(State()), Rotate(id, hash), auditable)
      ensures r.Success? ==> r.value in file && r.value.id == id && r.value.hash == hash
    {
      r := UpdateKeyFields(id, NewHash(hash), auditable);
    }

    method DeleteKey(id: string, auditable: bool) returns (r: Result<(), Error>)
      modifies this
      ensures Recorded(old(State()), State(), auditable, r)
      ensures State() == Apply(old(State()), Delete(id), auditable)
      ensures ProblemOf(r) == Problem(old(State()), Delete(id), auditable)
      ensures r == Failure(LastKeysWriteAdmin) <==> DeletionStrands(old(file), id)
    {
      DeleteRefusedExactlyWhenStranding(file, id);
      var loaded := Load(file);
      if loaded.None? {
        return Failure(InvalidStore);
      }
      var keys := loaded.value;
      var at := Find(keys, id);
      if at.None? {
        return Failure(KeyNotFound);
      }
      if HasKeysWrite(keys[at.value]) && !OthersHaveKeysWrite(keys, id) {
        return Failure(LastKeysWriteAdmin);
      }
      PersistConfig(Removed(keys, id), auditable);
      return if auditable then Success(()) else Failure(AuditUnavailable);
    }

    method RevertEntry(i: nat, auditable: bool) returns (r: Result<Entry, Error>)
      modifies this
      ensures Recorded(old(State()), State(), auditable, r)
      ensures State() == Apply(old(State()), Revert(i), auditable)
      ensures ProblemOf(r) == Problem(old(State()), Revert(i), auditable)
      ensures r.Success? ==> r.value == Entry(old(file), old(log)[i].before)
    {
      if i >= |log| {
        return Failure(EntryNotFound);
      }
      PersistConfig(log[i].before, auditable);
      return if auditable then Success(log[|log| - 1]) else Failure(AuditUnavailable);
    }
  }

  // ----- Loading -----

  // Keys as loading leaves them: all valid, hashes in lower case, ids and hashes unique.
  predicate Clean(keys: seq<Record>) {
    (forall r <- keys :: RecordLoads(r) && IsNormalDigest(r.hash)) && Unique(keys)
  }

  lemma LowerDigest(s: string)
    ensures IsDigest(s) <==> IsDigest(Lower(s))
    ensures Lower(Lower(s)) == Lower(s)
  {
    assert forall i :: 0 <= i < |s| ==> Lower(s)[i] == LowerChar(s[i]);
    assert forall i :: 0 <= i < |s| ==> (IsHex(s[i]) <==> IsHex(Lower(s)[i]));
  }

  // `low` is `s` with every capital letter made small.
  ghost predicate IsLowerOf(low: string, s: string) {
    && |low| == |s|
    && forall i :: 0 <= i < |s| ==> low[i] as int == s[i] as int + if 'A' <= s[i] <= 'Z' then 32 else 0
  }

  lemma LowerMeans(low: string, s: string)
    ensures low == Lower(s) <==> IsLowerOf(low, s)
  {
    assert forall i :: 0 <= i < |s| ==> Lower(s)[i] == LowerChar(s[i]);
    assert forall i :: 0 <= i < |s| ==> LowerChar(s[i]) as int == s[i] as int + if 'A' <= s[i] <= 'Z' then 32 else 0;
    if IsLowerOf(low, s) {
      forall i | 0 <= i < |s|
        ensures low[i] == Lower(s)[i]
      {
        assert low[i] as int == Lower(s)[i] as int;
      }
    }
  }

  // A record that is read: it lists a model, and its hash is 64 hexadecimal digits.
  ghost predicate Readable(r: Record) {
    && r.models.Some? && |r.models.value| >= 1
    && (|r.hash| == 64 || (|r.hash| == 65 && r.hash[64] == '\n'))
    && forall i :: 0 <= i < 64 ==> r.hash[i] in "0123456789abcdefABCDEF"
  }

  // What loading gives, and when: every record is readable, and comes back as it is but for
  // its hash, which is in small letters; no two have the same id or, then, the same hash.
  lemma LoadMeans(file: seq<Record>, keys: seq<Record>)
    ensures Load(file) == Some(keys) <==>
              && |keys| == |file|
              && (forall i :: 0 <= i < |file| ==> Readable(file[i]))
              && (forall i :: 0 <= i < |file| ==> keys[i].(hash := file[i].hash) == file[i] && IsLowerOf(keys[i].hash, file[i].hash))
              && (forall i, j :: 0 <= i < j < |keys| ==> keys[i].id != keys[j].id && keys[i].hash != keys[j].hash)
  {
    hide Lower, IsLowerOf, RecordLoads, Readable;
    forall i | 0 <= i < |file|
      ensures RecordLoads(file[i]) <==> Readable(file[i])
    {
      ReadableLoads(file[i]);
    }
    assert (forall r <- file :: RecordLoads(r)) <==> forall i :: 0 <= i < |file| ==> RecordLoads(file[i]);
    if |keys| == |file| {
      forall i | 0 <= i < |file|
        ensures keys[i] == Normalized(file)[i] <==> keys[i].(hash := file[i].hash) == file[i] && IsLowerOf(keys[i].hash, file[i].hash)
      {
        LowerMeans(keys[i].hash, file[i].hash);
      }
      assert keys == Normalized(file) <==> forall i :: 0 <= i < |file| ==> keys[i] == Normalized(file)[i];
    }
  }

  lemma ReadableLoads(r: Record)
    ensures RecordLoads(r) <==> Readable(r)
  {
    forall c: char
      ensures IsHex(c) <==> c in "0123456789abcdefABCDEF"
    {
      HexDigits(c);
    }
  }

  lemma HexDigits(c: char)
    ensures IsHex(c) <==> c in "0123456789abcdefABCDEF"
  {
    var digits := "0123456789abcdefABCDEF";
    if '0' <= c <= '9' {
      assert digits[c as int - '0' as int] == c;
    } else if 'a' <= c <= 'f' {
      assert digits[10 + (c as int - 'a' as int)] == c;
    } else if 'A' <= c <= 'F' {
      assert digits[16 + (c as int - 'A' as int)] == c;
    }
  }

  // What has been loaded is clean, and clean keys written to a file load as themselves.
  lemma LoadRoundTrip(file: seq<Record>, keys: seq<Record>)
    ensures Load(file).Some? ==> Clean(Load(file).value)
    ensures Clean(keys) ==> Load(keys) == Some(keys)
    ensures Load(file).Some? ==> HasWriter(Load(file).value) == HasWriter(file)
  {
    hide IsDigest, Lower;
    if Load(file).Some? {
      var loaded := Load(file).value;
      forall i | 0 <= i < |file|
        ensures RecordLoads(loaded[i]) && IsNormalDigest(loaded[i].hash) && HasKeysWrite(loaded[i]) == HasKeysWrite(file[i])
      {
        assert file[i] in file;
        LowerDigest(file[i].hash);
      }
      if r :| r in file && HasKeysWrite(r) {
        var i :| 0 <= i < |file| && file[i] == r;
        assert loaded[i] in loaded;
      }
    }
    if Clean(keys) {
      forall i | 0 <= i < |keys|
        ensures Normalized(keys)[i] == keys[i]
      {
        assert keys[i] in keys;
      }
      assert Normalized(keys) == keys;
    }
  }

  // ----- What the operations do to the keys -----

  lemma FindIsOnly(keys: seq<Record>, id: string)
    requires Unique(keys) && Find(keys, id).Some?
    ensures forall j :: 0 <= j < |keys| && j != Find(keys, id).value ==> keys[j].id != id
  {
    hide Find;
  }

  // The guard refuses an update exactly when some key can write keys and none could after it.
  lemma UpdateRefusedWhenNoWriterLeft(file: seq<Record>, id: string, f: Fields)
    requires Load(file).Some? && Find(Load(file).value, id).Some?
    ensures var keys := Load(file).value;
            var updated := WithFields(keys[Find(keys, id).value], f);
            Updated(file, id, f) == Failure(LastKeysWriteAdmin)
            <==> HasWriter(keys) && !HasWriter(Replaced(keys, id, updated))
  {
    hide Load, Find, HasKeysWrite;
    var keys := Load(file).value;
    LoadRoundTrip(file, []);
    FindIsOnly(keys, id);
    var i := Find(keys, id).value;
    var updated := WithFields(keys[i], f);
    var after := Replaced(keys, id, updated);
    assert after[i] == updated && keys[i] in keys && updated in after;
    if r :| r in keys && r.id != id && HasKeysWrite(r) {
      var j :| 0 <= j < |keys| && keys[j] == r;
      assert after[j] == r && r in after;
    }
    if r :| r in after && HasKeysWrite(r) {
      var j :| 0 <= j < |keys| && after[j] == r;
      assert keys[j] in keys;
    }
  }

  lemma {:induction false} RemovedMembers(keys: seq<Record>, id: string)
    ensures forall r :: r in Removed(keys, id) <==> r in keys && r.id != id
  {
    if keys != [] {
      var n := |keys| - 1;
      RemovedMembers(keys[..n], id);
      assert keys == keys[..n] + [keys[n]];
    }
  }

  lemma {:induction false} RemovedLookup(keys: seq<Record>, id: string)
    ensures ById(Removed(keys, id)) == ById(keys) - {id}
  {
    if keys != [] {
      var n := |keys| - 1;
      RemovedLookup(keys[..n], id);
      var before, after := Removed(keys[..n], id), Removed(keys, id);
      if keys[n].id == id {
        assert after == before;
      } else {
        assert after[..|after| - 1] == before && after[|after| - 1] == keys[n];
      }
    }
  }

  lemma {:induction false} RemovedUnique(keys: seq<Record>, id: string)
    requires Unique(keys)
    ensures Unique(Removed(keys, id))
  {
    if keys != [] {
      var n := |keys| - 1;
      RemovedUnique(keys[..n], id);
      RemovedMembers(keys[..n], id);
      var before := Removed(keys[..n], id);
      forall i | 0 <= i < |before|
        ensures before[i].id != keys[n].id && before[i].hash != keys[n].hash
      {
        assert before[i] in keys[..n];
      }
    }
  }

  // ... and a deletion likewise.
  lemma DeleteRefusedWhenNoWriterLeft(file: seq<Record>, id: string)
    requires Load(file).Some? && Find(Load(file).value, id).Some?
    ensures var keys := Load(file).value;
            Deleted(file, id) == Failure(LastKeysWriteAdmin) <==> HasWriter(keys) && !HasWriter(Removed(keys, id))
  {
    hide Load, Find, HasKeysWrite, ById, Removed;
    var keys := Load(file).value;
    LoadRoundTrip(file, []);
    FindIsOnly(keys, id);
    RemovedMembers(keys, id);
    var i := Find(keys, id).value;
    assert keys[i] in keys;
  }

  // The loaded keys differ from the stored ones in nothing that managing keys depends on.
  lemma OnlyManagerLoaded(file: seq<Record>, i: nat)
    requires Load(file).Some? && i < |file|
    ensures var keys := Load(file).value;
            && |keys| == |file| && keys[i].id == file[i].id
            && (OnlyManager(file, i) <==> HasKeysWrite(keys[i]) && !OthersHaveKeysWrite(keys, keys[i].id))
  {
    var keys := Load(file).value;
    hide Load, Normalized;
    LoadMeans(file, keys);
    forall j | 0 <= j < |file|
      ensures keys[j].id == file[j].id && (HasKeysWrite(keys[j]) <==> file[j].isAdmin || KeysWrite in file[j].scopes)
    {
      assert keys[j].(hash := file[j].hash) == file[j];
    }
    if OnlyManager(file, i) {
      forall r | r in keys && r.id != keys[i].id
        ensures !HasKeysWrite(r)
      {
        var j :| 0 <= j < |keys| && keys[j] == r;
        assert file[j].id != file[i].id;
      }
    }
    if !OthersHaveKeysWrite(keys, keys[i].id) {
      forall j | 0 <= j < |file| && file[j].id != file[i].id
        ensures !file[j].isAdmin && KeysWrite !in file[j].scopes
      {
        assert keys[j] in keys;
      }
    }
  }

  lemma FindAmongStored(file: seq<Record>, id: string)
    requires Load(file).Some?
    ensures var keys := Load(file).value;
            && (Find(keys, id).None? <==> forall i :: 0 <= i < |file| ==> file[i].id != id)
            && (forall i :: 0 <= i < |file| && file[i].id == id ==> Find(keys, id) == Some(i))
  {
    var keys := Load(file).value;
    LoadMeans(file, keys);
    hide Load, Find, IsLowerOf, Readable, Unique;
    forall i | 0 <= i < |file|
      ensures keys[i].id == file[i].id
      ensures file[i].id == id ==> Find(keys, id) == Some(i)
    {
      assert keys[i].(hash := file[i].hash) == file[i];
      assert keys[i] in keys;
    }
  }

  // A deletion is refused as stranding exactly if the key may manage keys, as an admin or by
  // its scopes, and no key of another id may.
  lemma DeleteRefusedExactlyWhenStranding(file: seq<Record>, id: string)
    ensures Deleted(file, id) == Failure(LastKeysWriteAdmin) <==> DeletionStrands(file, id)
  {
    if Load(file).Some? {
      hide Load, Find, Removed, OnlyManager, HasKeysWrite, OthersHaveKeysWrite;
      FindAmongStored(file, id);
      forall i | 0 <= i < |file|
        ensures file[i].id == Load(file).value[i].id
        ensures OnlyManager(file, i) <==>
                  HasKeysWrite(Load(file).value[i]) && !OthersHaveKeysWrite(Load(file).value, Load(file).value[i].id)
      {
        OnlyManagerLoaded(file, i);
      }
    }
  }

  // An update, exactly if that holds and the key could not manage keys after it.
  lemma UpdateRefusedExactlyWhenStranding(file: seq<Record>, id: string, f: Fields)
    ensures Updated(file, id, f) == Failure(LastKeysWriteAdmin) <==> UpdateStrands(file, id, f)
  {
    if Load(file).Some? {
      hide Load, Find, Replaced, OnlyManager, OthersHaveKeysWrite, Unique;
      FindAmongStored(file, id);
      forall i | 0 <= i < |file|
        ensures file[i].id == Load(file).value[i].id
        ensures OnlyManager(file, i) <==>
                  HasKeysWrite(Load(file).value[i]) && !OthersHaveKeysWrite(Load(file).value, Load(file).value[i].id)
        ensures Load(file).value[i].isAdmin == file[i].isAdmin && Load(file).value[i].scopes == file[i].scopes
      {
        OnlyManagerLoaded(file, i);
        LoadMeans(file, Load(file).value);
        assert Load(file).value[i].(hash := file[i].hash) == file[i];
      }
    }
  }

  // ----- What the operations write, and when they refuse -----

  // For each operation, on what the file loads as: the list it leaves, and every refusal.
  lemma CreateMeans(file: seq<Record>, keys: seq<Record>, record: Record)
    requires Load(file) == Some(keys)
    ensures Created(file, record) == Failure(KeyAlreadyExists) <==> exists i :: 0 <= i < |keys| && keys[i].id == record.id
    ensures Created(file, record) == Failure(InvalidStore) <==>
              (forall i :: 0 <= i < |keys| ==> keys[i].id != record.id) && exists i :: 0 <= i < |keys| && keys[i].hash == record.hash
    ensures Created(file, record).Failure? ==> Created(file, record).error in {KeyAlreadyExists, InvalidStore}
    ensures Created(file, record).Success? ==> Created(file, record).value == keys + [record]
  {
    LoadRoundTrip(file, []);
    hide Load;
    var more := keys + [record];
    assert (exists k <- keys :: k.id == record.id) <==> exists i :: 0 <= i < |keys| && keys[i].id == record.id;
    assert forall i :: 0 <= i < |keys| ==> more[i] == keys[i];
    assert more[|keys|] == record;
  }

  lemma UpdateMeans(file: seq<Record>, keys: seq<Record>, id: string, f: Fields)
    requires Load(file) == Some(keys)
    ensures Updated(file, id, f) == Failure(KeyNotFound) <==> forall i :: 0 <= i < |keys| ==> keys[i].id != id
    ensures Updated(file, id, f) == Failure(InvalidStore) <==>
              && !UpdateStrands(file, id, f)
              && f.hash.Some? && exists i, j :: 0 <= i < |keys| && 0 <= j < |keys| && keys[i].id == id && keys[j].id != id && keys[j].hash == f.hash.value
    ensures Updated(file, id, f).Failure? ==> Updated(file, id, f).error in {KeyNotFound, InvalidStore, LastKeysWriteAdmin}
    ensures Updated(file, id, f).Success? ==> forall i :: 0 <= i < |keys| && keys[i].id == id ==>
              Updated(file, id, f).value == keys[i := Record(
                id,
                if f.hash.Some? then f.hash.value else keys[i].hash,
                if f.models.Some? then f.models.value else keys[i].models,
                if f.isAdmin.Some? then f.isAdmin.value else keys[i].isAdmin,
                if f.scopes.Some? then f.scopes.value else keys[i].scopes,
                if f.settings.Some? then f.settings.value else keys[i].settings)]
  {
    LoadRoundTrip(file, []);
    UpdateRefusedExactlyWhenStranding(file, id, f);
    if Find(keys, id).Some? {
      hide Load, Find, WouldStrand, UpdateStrands;
      FindIsOnly(keys, id);
      var at := Find(keys, id).value;
      var updated := WithFields(keys[at], f);
      assert Replaced(keys, id, updated) == keys[at := updated];
      UniqueAfterUpdate(keys, at, updated);
    } else {
      hide Load, Find;
      assert forall i :: 0 <= i < |keys| ==> keys[i] in keys;
    }
  }

  lemma UniqueAfterUpdate(keys: seq<Record>, at: nat, updated: Record)
    requires Unique(keys) && at < |keys| && updated.id == keys[at].id
    ensures Unique(keys[at := updated]) <==> forall j :: 0 <= j < |keys| && j != at ==> keys[j].hash != updated.hash
  {
    var after := keys[at := updated];
    if Unique(after) {
      forall j | 0 <= j < |keys| && j != at
        ensures keys[j].hash != updated.hash
      {
        assert after[j] == keys[j] && after[at] == updated;
      }
    }
  }

  lemma DeleteMeans(file: seq<Record>, keys: seq<Record>, id: string)
    requires Load(file) == Some(keys)
    ensures Deleted(file, id) == Failure(KeyNotFound) <==> forall i :: 0 <= i < |keys| ==> keys[i].id != id
    ensures Deleted(file, id).Failure? ==> Deleted(file, id).error in {KeyNotFound, LastKeysWriteAdmin}
    ensures Deleted(file, id).Success? ==> forall i :: 0 <= i < |keys| && keys[i].id == id ==>
              Deleted(file, id).value == keys[..i] + keys[i + 1..]
  {
    LoadRoundTrip(file, []);
    hide Load, Find;
    assert forall i :: 0 <= i < |keys| ==> keys[i] in keys;
    forall i | 0 <= i < |keys| && keys[i].id == id
      ensures Removed(keys, id) == keys[..i] + keys[i + 1..]
    {
      RemovedOne(keys, id, i);
    }
  }

  lemma {:induction false} RemovedOne(keys: seq<Record>, id: string, i: nat)
    requires i < |keys| && keys[i].id == id && forall j :: 0 <= j < |keys| && j != i ==> keys[j].id != id
    ensures Removed(keys, id) == keys[..i] + keys[i + 1..]
  {
    var n := |keys| - 1;
    if i == n {
      RemovedNone(keys[..n], id);
    } else {
      RemovedOne(keys[..n], id, i);
      assert keys[..n][..i] == keys[..i] && keys[..n][i + 1..] + [keys[n]] == keys[i + 1..];
    }
  }

  lemma {:induction false} RemovedNone(keys: seq<Record>, id: string)
    requires forall j :: 0 <= j < |keys| ==> keys[j].id != id
    ensures Removed(keys, id) == keys
  {
    if keys != [] {
      RemovedNone(keys[..|keys| - 1], id);
    }
  }

  lemma {:induction false} ReplacedLookup(keys: seq<Record>, id: string, updated: Record)
    requires updated.id == id
    ensures ById(Replaced(keys, id, updated)) == if id in ById(keys) then ById(keys)[id := updated] else ById(keys)
  {
    if keys != [] {
      var n := |keys| - 1;
      ReplacedLookup(keys[..n], id, updated);
      assert Replaced(keys, id, updated)[..n] == Replaced(keys[..n], id, updated);
    }
  }

  // Seen through the lookup by id, the operations on the file are those on a dictionary:
  // create adds one key, update and rotate replace one, delete removes one.
  lemma OperationsOnLookup(s: Admin, op: Operation)
    requires Outcome(s, op).Success? && !op.Revert?
    ensures Load(s.file).Some?
    ensures var before, after := ById(Load(s.file).value), ById(Outcome(s, op).value);
            match op
            case Create(record) => record.id !in before && after == before[record.id := record]
            case Update(id, f) => id in before && after == before[id := WithFields(before[id], f)]
            case Rotate(id, hash) => id in before && after == before[id := before[id].(hash := hash)]
            case Delete(id) => id in before && after == before - {id}
  {
    hide Load, Find, ById;
    var keys := Load(s.file).value;
    LoadRoundTrip(s.file, []);
    match op {
      case Create(record) =>
        AppendedLookup(keys, record);
      case Update(id, f) => UpdatedLookup(keys, id, f);
      case Rotate(id, hash) => UpdatedLookup(keys, id, NewHash(hash));
      case Delete(id) =>
        RemovedLookup(keys, id);
        UpdatedLookup(keys, id, NewHash(""));
    }
  }

  lemma AppendedLookup(keys: seq<Record>, record: Record)
    ensures ById(keys + [record]) == ById(keys)[record.id := record]
    ensures (forall k <- keys :: k.id != record.id) ==> record.id !in ById(keys)
  {
    assert (keys + [record])[..|keys|] == keys;
    LookupsAreKeys(keys);
  }

  lemma UpdatedLookup(keys: seq<Record>, id: string, f: Fields)
    requires Unique(keys) && Find(keys, id).Some?
    ensures id in ById(keys) && ById(keys)[id] == keys[Find(keys, id).value]
    ensures ById(Replaced(keys, id, WithFields(ById(keys)[id], f))) == ById(keys)[id := WithFields(ById(keys)[id], f)]
  {
    hide ById, ByHash, Find;
    LookupsConsistent(keys);
    FindIsOnly(keys, id);
    var i := Find(keys, id).value;
    assert keys[i] in keys;
    ReplacedLookup(keys, id, WithFields(keys[i], f));
  }

  // ----- Key management is never stranded -----

  // What the admin API lets through: a created record is valid and its hash fresh from the
  // digest, as a rotated one is; an update does not touch the hash and does not null the models.
  ghost predicate Proper(op: Operation) {
    match op
    case Create(record) => RecordLoads(record) && IsNormalDigest(record.hash)
    case Update(_, f) => f.hash.None? && !ClearsModels(f)
    case Rotate(_, hash) => IsNormalDigest(hash)
    case Delete(_) => true
    case Revert(_) => true
  }

  ghost predicate ClearsModels(f: Fields) {
    f.models.Some? && (f.models.value.None? || f.models.value.value == [])
  }

  // An accepted update keeps a key with keys:write, but the file it writes loads again
  // exactly if the update does not clear the list of models.
  lemma UpdateLoadsUnlessCleared(file: seq<Record>, id: string, f: Fields)
    requires Healthy(file) && Updated(file, id, f).Success?
    requires f.hash.Some? ==> IsNormalDigest(f.hash.value)
    ensures HasWriter(Updated(file, id, f).value)
    ensures Load(Updated(file, id, f).value).Some? <==> !ClearsModels(f)
  {
    hide Load, Find, HasKeysWrite, IsNormalDigest, IsDigest;
    var keys, after := Load(file).value, Updated(file, id, f).value;
    LoadRoundTrip(file, after);
    UpdateRefusedWhenNoWriterLeft(file, id, f);
    FindIsOnly(keys, id);
    var i := Find(keys, id).value;
    assert keys[i] in keys && after[i] == WithFields(keys[i], f) && after[i] in after;
    if ClearsModels(f) {
      InvalidDoesNotLoad(after, i);
    } else {
      DigestIsNormal(keys[i].hash);
      if f.hash.Some? {
        DigestIsNormal(f.hash.value);
      }
      forall r | r in after
        ensures RecordLoads(r) && IsNormalDigest(r.hash)
      {
        var j :| 0 <= j < |after| && after[j] == r;
        assert keys[j] in keys;
      }
    }
  }

  lemma DigestIsNormal(s: string)
    ensures IsNormalDigest(s) ==> IsDigest(s)
  {
  }

  lemma InvalidDoesNotLoad(file: seq<Record>, i: nat)
    requires i < |file| && !RecordLoads(file[i])
    ensures Load(file).None?
  {
    assert file[i] in file;
  }

  lemma CreateKeepsHealthy(file: seq<Record>, record: Record)
    requires Healthy(file) && Created(file, record).Success? && Proper(Create(record))
    ensures Healthy(Created(file, record).value)
  {
    hide Load, HasKeysWrite, IsNormalDigest, IsDigest;
    var keys := Load(file).value;
    LoadRoundTrip(file, keys + [record]);
    assert forall r <- keys :: r in keys + [record];
  }

  lemma DeleteKeepsHealthy(file: seq<Record>, id: string)
    requires Healthy(file) && Deleted(file, id).Success?
    ensures Healthy(Deleted(file, id).value)
  {
    hide Load, Find, HasKeysWrite, IsNormalDigest, IsDigest, ById, Removed;
    var keys := Load(file).value;
    LoadRoundTrip(file, Removed(keys, id));
    RemovedMembers(keys, id);
    RemovedUnique(keys, id);
    DeleteRefusedWhenNoWriterLeft(file, id);
  }

  // One accepted operation: the store stays healthy exactly if it is not an update that
  // clears the models nor a revert of an entry from before the store was healthy.
  lemma StepHealth(s: Admin, op: Operation)
    requires Healthy(s.file) && Outcome(s, op).Success?
    requires op.Update? || Proper(op)
    requires op.Update? ==> op.fields.hash.None?
    ensures Healthy(Outcome(s, op).value) <==>
              match op
              case Update(_, f) => !ClearsModels(f)
              case Revert(i) => Healthy(s.log[i].before)
              case _ => true
  {
    hide Healthy, Created, Updated, Deleted;
    match op {
      case Create(record) => CreateKeepsHealthy(s.file, record);
      case Update(id, f) => UpdateHealth(s.file, id, f);
      case Rotate(id, hash) => UpdateHealth(s.file, id, NewHash(hash));
      case Delete(id) => DeleteKeepsHealthy(s.file, id);
      case Revert(_) =>
    }
  }

  lemma UpdateHealth(file: seq<Record>, id: string, f: Fields)
    requires Healthy(file) && Updated(file, id, f).Success?
    requires f.hash.Some? ==> IsNormalDigest(f.hash.value)
    ensures Healthy(Updated(file, id, f).value) <==> !ClearsModels(f)
  {
    hide Load, Updated, IsNormalDigest, ClearsModels, HasWriter;
    UpdateLoadsUnlessCleared(file, id, f);
  }

  // From a healthy store, every run of proper operations, reverts of entries recorded in the
  // run included, keeps it healthy throughout, whichever of them could be recorded; so
  // whatever it loads has a key with keys:write, unique ids and hashes, and consistent lookups.
  lemma NeverStranded(file: seq<Record>, attempts: seq<Attempt>)
    requires Manageable(file) && forall a <- attempts :: Proper(a.op)
    ensures var s := Run(Admin(file, []), attempts);
            && Manageable(s.file)
            && forall e <- s.log :: Manageable(e.before) && Manageable(e.after)
  {
    hide Healthy, Manageable, Proper;
    ManageableIsHealthy(file);
    AlwaysHealthy(file, attempts);
    var s := Run(Admin(file, []), attempts);
    ManageableIsHealthy(s.file);
    forall e | e in s.log
      ensures Manageable(e.before) && Manageable(e.after)
    {
      ManageableIsHealthy(e.before);
      ManageableIsHealthy(e.after);
    }
  }

  // The file loads, and some key in it is an admin or lists keys:write.
  ghost predicate Manageable(file: seq<Record>) {
    Load(file).Some? && exists i :: 0 <= i < |file| && (file[i].isAdmin || KeysWrite in file[i].scopes)
  }

  lemma ManageableIsHealthy(file: seq<Record>)
    ensures Manageable(file) <==> Healthy(file)
  {
    hide Load;
    if i :| 0 <= i < |file| && (file[i].isAdmin || KeysWrite in file[i].scopes) {
      assert file[i] in file;
    }
  }

  lemma {:induction false} AlwaysHealthy(file: seq<Record>, attempts: seq<Attempt>)
    requires Healthy(file) && forall a <- attempts :: Proper(a.op)
    ensures var s := Run(Admin(file, []), attempts);
            && Healthy(s.file)
            && forall e <- s.log :: Healthy(e.before) && Healthy(e.after)
  {
    hide Healthy, Proper, Outcome;
    if attempts != [] {
      var n := |attempts| - 1;
      AlwaysHealthy(file, attempts[..n]);
      var s := Run(Admin(file, []), attempts[..n]);
      assert attempts[n] in attempts;
      if Outcome(s, attempts[n].op).Success? {
        ProperStep(s, attempts[n].op);
      }
    }
  }

  lemma ProperStep(s: Admin, op: Operation)
    requires Healthy(s.file) && Outcome(s, op).Success? && Proper(op)
    requires forall e <- s.log :: Healthy(e.before)
    ensures Healthy(Outcome(s, op).value)
  {
    hide Healthy, Created, Updated, Deleted, ClearsModels, IsNormalDigest, RecordLoads;
    StepHealth(s, op);
    if op.Revert? {
      assert s.log[op.entry] in s.log;
    }
  }

  // What health gives whoever asks the store.
  lemma HealthyMeans(file: seq<Record>)
    requires Healthy(file)
    ensures var keys := Load(file).value;
            && Unique(keys) && Consistent(keys)
            && exists id <- ById(keys) :: HasKeysWrite(ById(keys)[id]) && ById(keys)[id].hash in ByHash(keys) && ByHash(keys)[ById(keys)[id].hash] == ById(keys)[id]
  {
    hide ById, ByHash, HasKeysWrite, Load;
    var keys := Load(file).value;
    LoadRoundTrip(file, []);
    LookupsConsistent(keys);
    var r :| r in keys && HasKeysWrite(r);
    var i :| 0 <= i < |keys| && keys[i] == r;
    assert keys[i].id in ById(keys);
  }

  // A revert undoes the operation just recorded, and its own revert brings that back.
  lemma RevertUndoes(s: Admin, op: Operation)
    requires Outcome(s, op).Success?
    ensures var done := Apply(s, op, true);
            var undone := Apply(done, Revert(|s.log|), true);
            var redone := Apply(undone, Revert(|s.log| + 1), true);
            undone.file == s.file && redone.file == done.file && |redone.log| == |s.log| + 3
  {
    hide Outcome;
    var done := Apply(s, op, true);
    RevertOf(done, |s.log|);
    RevertOf(Apply(done, Revert(|s.log|), true), |s.log| + 1);
  }

  lemma RevertOf(s: Admin, i: nat)
    requires i < |s.log|
    ensures Apply(s, Revert(i), true) == Admin(s.log[i].before, s.log + [Entry(s.file, s.log[i].before)])
  {
  }

  // Nulling the models of a key is accepted and recorded, although the file it leaves does
  // not load: from then on nothing but a revert is accepted.
  lemma ClearingModelsBreaksStore(file: seq<Record>, log: seq<Entry>, id: string, next: Operation)
    requires Healthy(file) && Find(Load(file).value, id).Some?
    ensures var f := Fields(Some(None), None, None, None, None);
            var s := Admin(file, log);
            var broken := Apply(s, Update(id, f), true);
            && Updated(file, id, f).Success? && broken.log == log + [Entry(file, broken.file)]
            && Load(broken.file).None?
            && (Outcome(broken, next).Success? <==> next.Revert? && next.entry <= |log|)
  {
    hide Load, Find, HasKeysWrite, IsDigest, IsNormalDigest;
    var f := Fields(Some(None), None, None, None, None);
    var keys := Load(file).value;
    LoadRoundTrip(file, []);
    FindIsOnly(keys, id);
    var i := Find(keys, id).value;
    KeepsScopes(keys[i], WithFields(keys[i], f));
    UpdateLoadsUnlessCleared(file, id, f);
  }

  lemma KeepsScopes(r: Record, updated: Record)
    requires updated.isAdmin == r.isAdmin && updated.scopes == r.scopes
    ensures HasKeysWrite(updated) == HasKeysWrite(r)
  {
  }
}
