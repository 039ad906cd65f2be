// Hash-chained log lines and their verification (app/core/hash_chain.py).
module HashChain {
  import opened Wrappers

  // An entry's own fields: its id, and the rest in canonical form.
  datatype Payload = Payload(id: string, content: string)

  // SHA-256 idealised: a digest determines the previous hash and the payload it was computed
  // from. `Genesis` is the fixed string every chain starts from, and `Raw` any other string
  // that is not a digest, the empty one included.
  datatype Hash = Genesis | Raw(text: string) | Digest(prev: Hash, payload: Payload)

  function ComputeHash(prev: Hash, payload: Payload): Hash {
    Digest(prev, payload)
  }

  // One line of a log; lines written before the chain existed lack one or both hashes.
  datatype Line = Line(payload: Payload, prev: Option<Hash>, hash: Option<Hash>)

  // Present and not empty, which is all the source asks of a hash field.
  predicate Truthy(h: Option<Hash>) {
    h.Some? && h.value != Raw("")
  }

  predicate Chained(line: Line) {
    Truthy(line.hash) && Truthy(line.prev)
  }

  function ChainedLine(prev: Hash, payload: Payload): Line {
    Line(payload, Some(prev), Some(ComputeHash(prev, payload)))
  }

  datatype Checkpoint = Checkpoint(throughHash: Option<Hash>, count: nat)

  // What a new entry chains on to.
  function PreviousHash(lines: seq<Line>, checkpoint: Option<Checkpoint>): Hash {
    if lines != [] && Truthy(lines[|lines| - 1].hash) then lines[|lines| - 1].hash.value
    else if checkpoint.Some? && Truthy(checkpoint.value.throughHash) then checkpoint.value.throughHash.value
    else Genesis
  }

  // `line` correctly follows an entry whose hash is `prev`.
  predicate Follows(prev: Hash, line: Line) {
    && Chained(line)
    && line.prev.value == prev
    && line.hash.value == ComputeHash(prev, line.payload)
  }

  // The hash line i has to continue from, in a chain whose first line is at `from`.
  function HashBefore(base: Hash, lines: seq<Line>, from: nat, i: nat): Hash
    requires from <= i <= |lines|
  {
    if i == from then base
    else if lines[i - 1].hash.Some? then lines[i - 1].hash.value
    else Raw("")
  }

  // Lines from..to form a chain that continues from `base`.
  predicate Intact(base: Hash, lines: seq<Line>, from: nat, to: nat)
    requires to <= |lines|
  {
    forall i {:trigger Follows(HashBefore(base, lines, from, i), lines[i])} ::
      from <= i < to ==> Follows(HashBefore(base, lines, from, i), lines[i])
  }

  datatype Reason = Unchained | WrongPrevious | WrongContent

  datatype Verdict = Verdict(valid: bool, verified: nat, legacy: nat, broken: Option<(string, Reason)>)

  function Base(checkpointHash: Option<Hash>): Hash {
    if checkpointHash.Some? then checkpointHash.value else Genesis
  }

  // The verdict on a file: its legacy lines come first, and only before any checkpoint; then
  // `verified` intact lines; then nothing, or the line the report names.
  ghost predicate Judges(v: Verdict, lines: seq<Line>, checkpointHash: Option<Hash>) {
    && v.legacy + v.verified <= |lines|
    && (checkpointHash.Some? ==> v.legacy == 0)
    && (forall i :: 0 <= i < v.legacy ==> !Chained(lines[i]))
    && (checkpointHash.None? && v.legacy < |lines| ==> Chained(lines[v.legacy]))
    && Intact(Base(checkpointHash), lines, v.legacy, v.legacy + v.verified)
    && (v.valid <==> v.legacy + v.verified == |lines|)
    && (v.valid <==> v.broken.None?)
    && (v.broken.Some? ==>
          var line := lines[v.legacy + v.verified];
          var expected := HashBefore(Base(checkpointHash), lines, v.legacy, v.legacy + v.verified);
          && !Follows(expected, line)
          && v.broken.value == (line.payload.id, if !Chained(line) then Unchained
                                         else if line.prev.value != expected then WrongPrevious
                                         else WrongContent))
  }

  // Said of the fields alone: the legacy lines each lack a hash, or have an empty one; the
  // verified ones have both hashes, not empty, each line's previous hash being the hash of the
  // line before it, the first one's the checkpoint's or the genesis hash, and its own hash
  // that of the previous one and the payload; and the line where this ends, if there is one,
  // is not such a line.
  ghost predicate Reports(v: Verdict, lines: seq<Line>, checkpointHash: Option<Hash>) {
    && v.legacy + v.verified <= |lines|
    && (forall i :: 0 <= i < v.legacy ==> !Linked(lines[i]))
    && (forall i :: v.legacy <= i < v.legacy + v.verified ==> Continues(lines, v.legacy, i, checkpointHash))
    && (v.legacy > 0 ==> checkpointHash == None)
    && (checkpointHash == None && v.legacy < |lines| ==> Linked(lines[v.legacy]))
    && (v.valid <==> v.legacy + v.verified == |lines|)
    && (!v.valid ==>
          var i := v.legacy + v.verified;
          && !Continues(lines, v.legacy, i, checkpointHash)
          && v.broken.Some? && v.broken.value.0 == lines[i].payload.id
          && (v.broken.value.1 == Unchained <==> !Linked(lines[i])))
  }

  // Both hashes are there and not empty.
  ghost predicate Linked(line: Line) {
    line.hash != None && line.hash != Some(Raw("")) && line.prev != None && line.prev != Some(Raw(""))
  }

  ghost predicate Continues(lines: seq<Line>, from: nat, i: nat, checkpointHash: Option<Hash>)
    requires from <= i < |lines|
  {
    && Linked(lines[i])
    && lines[i].prev == (if i > from then lines[i - 1].hash
                         else if checkpointHash == None then Some(Genesis)
                         else checkpointHash)
    && lines[i].hash == Some(Digest(lines[i].prev.value, lines[i].payload))
  }

  lemma JudgedReports(v: Verdict, lines: seq<Line>, checkpointHash: Option<Hash>)
    requires Judges(v, lines, checkpointHash)
    ensures Reports(v, lines, checkpointHash)
  {
    forall i | v.legacy <= i < v.legacy + v.verified
      ensures Continues(lines, v.legacy, i, checkpointHash)
    {
      assert Follows(HashBefore(Base(checkpointHash), lines, v.legacy, i), lines[i]);
      if i > v.legacy {
        assert Follows(HashBefore(Base(checkpointHash), lines, v.legacy, i - 1), lines[i - 1]);
      }
    }
    if v.verified > 0 && !v.valid {
      var i := v.legacy + v.verified;
      assert Continues(lines, v.legacy, i - 1, checkpointHash);
    }
  }

  method VerifyChain(lines: seq<Line>, checkpointHash: Option<Hash>) returns (v: Verdict)
    ensures Judges(v, lines, checkpointHash)
    ensures Reports(v, lines, checkpointHash)
  {
    v := VerifyLines(lines, checkpointHash);
    JudgedReports(v, lines, checkpointHash);
  }

  method VerifyLines(lines: seq<Line>, checkpointHash: Option<Hash>) returns (v: Verdict)
    ensures Judges(v, lines, checkpointHash)
  {
    var expected := if checkpointHash.Some? then checkpointHash.value else Genesis;
    var started := checkpointHash.Some?;
    var verified, legacy := 0, 0;
    for i := 0 to |lines|
      invariant legacy + verified == i
      invariant checkpointHash.Some? ==> legacy == 0
      invariant started <==> checkpointHash.Some? || verified > 0
      invariant forall j :: 0 <= j < legacy ==> !Chained(lines[j])
      invariant verified > 0 && checkpointHash.None? ==> Chained(lines[legacy])
      invariant Intact(Base(checkpointHash), lines, legacy, i)
      invariant expected == HashBefore(Base(checkpointHash), lines, legacy, i)
    {
      var line := lines[i];
      if !Chained(line) {
        if started {
          return Verdict(false, verified, legacy, Some((line.payload.id, Unchained)));
        }
        legacy := legacy + 1;
        continue;
      }
      started := true;
      if line.prev.value != expected {
        return Verdict(false, verified, legacy, Some((line.payload.id, WrongPrevious)));
      }
      if ComputeHash(expected, line.payload) != line.hash.value {
        return Verdict(false, verified, legacy, Some((line.payload.id, WrongContent)));
      }
      expected := line.hash.value;
      verified := verified + 1;
    }
    return Verdict(true, verified, legacy, None);
  }

  method VerifyLogFile(lines: seq<Line>, checkpoint: Option<Checkpoint>) returns (v: Verdict)
    ensures Judges(v, lines, if checkpoint.Some? then checkpoint.value.throughHash else None)
    ensures Reports(v, lines, if checkpoint.Some? then checkpoint.value.throughHash else None)
  {
    v := VerifyChain(lines, if checkpoint.Some? then checkpoint.value.throughHash else None);
  }

  // The verdict is determined by the file: there is one and only one.
  lemma VerdictUnique(v: Verdict, w: Verdict, lines: seq<Line>, checkpointHash: Option<Hash>)
    requires Judges(v, lines, checkpointHash) && Judges(w, lines, checkpointHash)
    ensures v == w
  {
  }

  // Appending, and cutting anywhere: the rest continues from the last line cut off.
  lemma IntactGrows(base: Hash, lines: seq<Line>, from: nat, line: Line)
    requires from <= |lines|
    ensures Intact(base, lines + [line], from, |lines| + 1)
       <==> Intact(base, lines, from, |lines|) && Follows(HashBefore(base, lines, from, |lines|), line)
  {
    var more := lines + [line];
    assert forall i :: from <= i <= |lines| ==> HashBefore(base, more, from, i) == HashBefore(base, lines, from, i);
    if Intact(base, more, from, |more|) {
      assert Follows(HashBefore(base, more, from, |lines|), more[|lines|]);
      forall i | from <= i < |lines|
        ensures Follows(HashBefore(base, lines, from, i), lines[i])
      {
        assert Follows(HashBefore(base, more, from, i), more[i]);
      }
    }
  }

  lemma IntactDrops(base: Hash, lines: seq<Line>, from: nat, k: nat)
    requires from <= |lines| && k <= |lines| && Intact(base, lines, from, |lines|)
    ensures k <= from ==> Intact(base, lines[k..], from - k, |lines| - k)
    ensures k > from ==> Intact(HashBefore(base, lines, from, k), lines[k..], 0, |lines| - k)
  {
    var rest := lines[k..];
    forall i | k <= i < |lines|
      ensures rest[i - k] == lines[i]
    {
    }
    forall i | (if k <= from then from - k else 0) <= i < |rest|
      ensures Follows(if k <= from then HashBefore(base, rest, from - k, i)
                      else HashBefore(HashBefore(base, lines, from, k), rest, 0, i), rest[i])
    {
      assert Follows(HashBefore(base, lines, from, i + k), lines[i + k]);
    }
  }
}
