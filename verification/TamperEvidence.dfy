// What the hash chain proves about a file that was changed behind the log's back
// (app/core/hash_chain.py).
module TamperEvidence {
  import opened Wrappers
  import opened HashChain

  function Depth(h: Hash): nat {
    match h
    case Genesis => 0
    case Raw(_) => 0
    case Digest(prev, _) => 1 + Depth(prev)
  }

  // Along an intact chain no hash ever comes back.
  lemma {:induction false} HashesDeepen(base: Hash, lines: seq<Line>, from: nat, i: nat, j: nat)
    requires from <= i < j <= |lines| && Intact(base, lines, from, j)
    ensures Depth(HashBefore(base, lines, from, i)) < Depth(HashBefore(base, lines, from, j))
  {
    assert Follows(HashBefore(base, lines, from, j - 1), lines[j - 1]);
    if i < j - 1 {
      HashesDeepen(base, lines, from, i, j - 1);
    }
  }

  // Two chains from the same base that end in the same hash are the same, entry for entry.
  lemma {:induction false} SameEndSameChain(base: Hash, ls: seq<Line>, l: nat, ms: seq<Line>, m: nat)
    requires l <= |ls| && m <= |ms|
    requires Intact(base, ls, l, |ls|) && Intact(base, ms, m, |ms|)
    requires HashBefore(base, ls, l, |ls|) == HashBefore(base, ms, m, |ms|)
    ensures ls[l..] == ms[m..]
    decreases |ls|
  {
    if l == |ls| {
      if m < |ms| {
        HashesDeepen(base, ms, m, m, |ms|);
      }
    } else if m == |ms| {
      HashesDeepen(base, ls, l, l, |ls|);
    } else {
      var ls', ms' := ls[..|ls| - 1], ms[..|ms| - 1];
      var x, y := ls[|ls| - 1], ms[|ms| - 1];
      assert ls == ls' + [x] && ms == ms' + [y];
      IntactGrows(base, ls', l, x);
      IntactGrows(base, ms', m, y);
      assert x == y;
      SameEndSameChain(base, ls', l, ms', m);
      assert ls[l..] == ls'[l..] + [x] && ms[m..] == ms'[m..] + [y];
    }
  }

  // Tamper evidence: a file that verifies against the same checkpoint and keeps the last
  // chained entry has exactly the chained entries of the genuine one.
  lemma VerifyingFileIsGenuine(genuine: seq<Line>, g: Verdict, file: seq<Line>, f: Verdict, checkpointHash: Option<Hash>)
    requires Judges(g, genuine, checkpointHash) && g.valid
    requires Judges(f, file, checkpointHash) && f.valid
    requires genuine != [] && file != []
    requires Chained(genuine[|genuine| - 1]) && file[|file| - 1].hash == genuine[|genuine| - 1].hash
    requires Chained(file[|file| - 1])
    ensures file[f.legacy..] == genuine[g.legacy..]
  {
    SameEndSameChain(Base(checkpointHash), file, f.legacy, genuine, g.legacy);
  }

  // Where verification stops: at the first line that does not follow, past the legacy part.
  lemma StopsAt(file: seq<Line>, f: Verdict, checkpointHash: Option<Hash>, legacy: nat, k: nat)
    requires Judges(f, file, checkpointHash)
    requires legacy <= k < |file| && (checkpointHash.Some? ==> legacy == 0)
    requires forall i :: 0 <= i < legacy ==> !Chained(file[i])
    requires k == legacy && checkpointHash.None? ==> Chained(file[k])
    requires Intact(Base(checkpointHash), file, legacy, k)
    requires !Follows(HashBefore(Base(checkpointHash), file, legacy, k), file[k])
    ensures !f.valid && f.legacy == legacy && f.verified == k - legacy
  {
    if legacy < k {
      assert Follows(HashBefore(Base(checkpointHash), file, legacy, legacy), file[legacy]);
    }
    assert f.legacy == legacy;
    if f.verified > k - legacy {
      assert false;
    }
  }

  // A genuine file, whose chained entries start at `legacy`.
  ghost predicate Genuine(lines: seq<Line>, checkpointHash: Option<Hash>, legacy: nat) {
    && legacy <= |lines|
    && (checkpointHash.Some? ==> legacy == 0)
    && (forall i :: 0 <= i < legacy ==> !Chained(lines[i]))
    && Intact(Base(checkpointHash), lines, legacy, |lines|)
  }

  lemma GenuineVerifies(lines: seq<Line>, v: Verdict, checkpointHash: Option<Hash>, legacy: nat)
    requires Genuine(lines, checkpointHash, legacy) && Judges(v, lines, checkpointHash)
    ensures v.valid && v.legacy == legacy && v.verified == |lines| - legacy && v.broken == None
  {
    if legacy < |lines| {
      assert Follows(HashBefore(Base(checkpointHash), lines, legacy, legacy), lines[legacy]);
    }
  }

  // A prefix shared with a genuine file keeps its chain.
  lemma SharedPrefix(lines: seq<Line>, file: seq<Line>, checkpointHash: Option<Hash>, legacy: nat, k: nat)
    requires Genuine(lines, checkpointHash, legacy) && legacy <= k <= |lines| && k <= |file|
    requires forall i :: 0 <= i < k ==> file[i] == lines[i]
    ensures forall i :: 0 <= i < legacy ==> !Chained(file[i])
    ensures Intact(Base(checkpointHash), file, legacy, k)
    ensures HashBefore(Base(checkpointHash), file, legacy, k) == HashBefore(Base(checkpointHash), lines, legacy, k)
  {
    var base := Base(checkpointHash);
    forall i | legacy <= i < k
      ensures Follows(HashBefore(base, file, legacy, i), file[i])
    {
      assert Follows(HashBefore(base, lines, legacy, i), lines[i]);
    }
  }

  // An entry moved forward to an earlier position does not follow there.
  lemma LaterEntryDoesNotFollow(lines: seq<Line>, checkpointHash: Option<Hash>, legacy: nat, k: nat, j: nat)
    requires Genuine(lines, checkpointHash, legacy) && legacy <= k < j < |lines|
    ensures Chained(lines[j])
    ensures !Follows(HashBefore(Base(checkpointHash), lines, legacy, k), lines[j])
  {
    assert Follows(HashBefore(Base(checkpointHash), lines, legacy, j), lines[j]);
    HashesDeepen(Base(checkpointHash), lines, legacy, k, j);
  }

  // Reordering or deleting: a later entry appears where entry k should be, and exactly the
  // entries before it still verify.
  lemma MovedEntryDetected(lines: seq<Line>, checkpointHash: Option<Hash>, legacy: nat, k: nat, j: nat, file: seq<Line>, f: Verdict)
    requires Genuine(lines, checkpointHash, legacy) && legacy <= k < j < |lines|
    requires k < |file| && file[..k] == lines[..k] && file[k] == lines[j]
    requires Judges(f, file, checkpointHash)
    ensures !f.valid && f.legacy == legacy && f.verified == k - legacy
  {
    assert forall i :: 0 <= i < k ==> file[i] == file[..k][i] == lines[i];
    SharedPrefix(lines, file, checkpointHash, legacy, k);
    LaterEntryDoesNotFollow(lines, checkpointHash, legacy, k, j);
    StopsAt(file, f, checkpointHash, legacy, k);
  }

  lemma DeletionDetected(lines: seq<Line>, checkpointHash: Option<Hash>, legacy: nat, k: nat, f: Verdict)
    requires Genuine(lines, checkpointHash, legacy) && legacy <= k < |lines| - 1
    requires Judges(f, lines[..k] + lines[k + 1..], checkpointHash)
    ensures !f.valid && f.legacy == legacy && f.verified == k - legacy
  {
    var file := lines[..k] + lines[k + 1..];
    assert file[..k] == lines[..k];
    MovedEntryDetected(lines, checkpointHash, legacy, k, k + 1, file, f);
  }

  // A line x put at position k, with a genuine entry j right behind it. Verification goes
  // past x only if x itself follows, and stops there: its hash is not what j continues from.
  lemma ForeignEntryDetected(lines: seq<Line>, checkpointHash: Option<Hash>, legacy: nat, k: nat, j: nat, file: seq<Line>, f: Verdict)
    requires Genuine(lines, checkpointHash, legacy) && legacy <= k <= j < |lines|
    requires k + 1 < |file| && file[..k] == lines[..k] && file[k + 1] == lines[j]
    requires j == k || (j == k + 1 && file[k] != lines[k])
    requires Judges(f, file, checkpointHash)
    requires j == k ==> k > legacy || checkpointHash.Some? || Chained(file[k])
    ensures !f.valid
    ensures f.verified == k - legacy + (if Follows(HashBefore(Base(checkpointHash), lines, legacy, k), file[k]) then 1 else 0)
  {
    var base := Base(checkpointHash);
    var x := file[k];
    assert forall i :: 0 <= i < k ==> file[i] == file[..k][i] == lines[i];
    SharedPrefix(lines, file, checkpointHash, legacy, k);
    assert Follows(HashBefore(base, lines, legacy, k), lines[k]);
    assert Follows(HashBefore(base, lines, legacy, j), lines[j]);
    if j == k + 1 {
      HashesDeepen(base, lines, legacy, k, j);
    }
    if Follows(HashBefore(base, lines, legacy, k), x) {
      assert Intact(base, file, legacy, k + 1);
      assert !Follows(HashBefore(base, file, legacy, k + 1), lines[j]) by {
        assert Depth(x.hash.value) == Depth(HashBefore(base, lines, legacy, k)) + 1;
      }
      StopsAt(file, f, checkpointHash, legacy, k + 1);
    } else if k > legacy || checkpointHash.Some? || Chained(x) {
      StopsAt(file, f, checkpointHash, legacy, k);
    } else {
      // x made the first chained line look like one more legacy line.
      assert Intact(base, file, legacy + 1, k + 1);
      StopsAt(file, f, checkpointHash, legacy + 1, k + 1);
    }
  }

  // Editing any entry but the last one.
  lemma EditDetected(lines: seq<Line>, checkpointHash: Option<Hash>, legacy: nat, k: nat, x: Line, f: Verdict)
    requires Genuine(lines, checkpointHash, legacy) && legacy <= k < |lines| - 1 && x != lines[k]
    requires Judges(f, lines[k := x], checkpointHash)
    ensures !f.valid
    ensures f.verified == k - legacy + (if Follows(HashBefore(Base(checkpointHash), lines, legacy, k), x) then 1 else 0)
  {
    ForeignEntryDetected(lines, checkpointHash, legacy, k, k + 1, lines[k := x], f);
  }

  // Inserting a line before any chained entry is noticed, unless it passes for one more
  // legacy line in front of a chain that starts on disk.
  lemma InsertionDetected(lines: seq<Line>, checkpointHash: Option<Hash>, legacy: nat, k: nat, x: Line, f: Verdict)
    requires Genuine(lines, checkpointHash, legacy) && legacy <= k < |lines|
    requires Judges(f, lines[..k] + [x] + lines[k..], checkpointHash)
    ensures f.valid <==> k == legacy && checkpointHash.None? && !Chained(x)
    ensures f.valid ==> f.legacy == legacy + 1 && f.verified == |lines| - legacy
    ensures !f.valid ==>
              f.verified == k - legacy + (if Follows(HashBefore(Base(checkpointHash), lines, legacy, k), x) then 1 else 0)
  {
    var file := lines[..k] + [x] + lines[k..];
    assert file[..k] == lines[..k] && file[k] == x;
    if k == legacy && checkpointHash.None? && !Chained(x) {
      forall i | legacy + 1 <= i < |file|
        ensures Follows(HashBefore(Genesis, file, legacy + 1, i), file[i])
      {
        assert file[i] == lines[i - 1];
        assert Follows(HashBefore(Genesis, lines, legacy, i - 1), lines[i - 1]);
      }
      GenuineVerifies(file, f, checkpointHash, legacy + 1);
    } else {
      ForeignEntryDetected(lines, checkpointHash, legacy, k, k, file, f);
    }
  }
}
