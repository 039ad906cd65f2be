// Tool calls streamed in fragments (app/guardrails/output_leak.py): each fragment is tagged
// with its call's index; fragments of different calls interleave freely, across and within
// frames.
module ToolCalls {
  import opened Wrappers

  // One entry of a frame's `delta.tool_calls`. An entry without an integer index is skipped.
  datatype Fragment = Fragment(
    index: Option<int>,
    id: Option<string>,
    kind: Option<string>,
    name: Option<string>,
    arguments: Option<string>)

  datatype Slot = Slot(id: Option<string>, kind: Option<string>, name: Option<string>, arguments: string)

  type Slots = map<int, Slot>

  const EMPTY := Slot(None, None, None, "")

  predicate Truthy(s: Option<string>) {
    s.Some? && s.value != ""
  }

  function Absorbed(slot: Slot, f: Fragment): Slot {
    Slot(
      if Truthy(f.id) then f.id else slot.id,
      if Truthy(f.kind) then f.kind else slot.kind,
      if Truthy(f.name) then f.name else slot.name,
      if f.arguments.Some? then slot.arguments + f.arguments.value else slot.arguments)
  }

  function Added(slots: Slots, f: Fragment): Slots {
    match f.index
    case None => slots
    case Some(i) => slots[i := Absorbed(if i in slots then slots[i] else EMPTY, f)]
  }

  function AddedAll(slots: Slots, fs: seq<Fragment>): Slots {
    if fs == [] then slots else Added(AddedAll(slots, fs[..|fs| - 1]), fs[|fs| - 1])
  }

  // The indices in order of first arrival, which is the order the slots are kept in.
  function Arrived(order: seq<int>, f: Fragment): seq<int> {
    match f.index
    case None => order
    case Some(i) => if i in order then order else order + [i]
  }

  function ArrivedAll(order: seq<int>, fs: seq<Fragment>): seq<int> {
    if fs == [] then order else Arrived(ArrivedAll(order, fs[..|fs| - 1]), fs[|fs| - 1])
  }

  // The order names the slots, each once.
  ghost predicate Orders(order: seq<int>, slots: Slots) {
    && (forall k :: 0 <= k < |order| ==> order[k] in slots)
    && (forall i: int :: i in slots ==> i in order)
    && (forall j, k :: 0 <= j < k < |order| ==> order[j] != order[k])
  }

  lemma NamesSlots(order: seq<int>, slots: Slots, i: int)
    requires Orders(order, slots)
    ensures i in order <==> i in slots
  {
    if i in order {
      var k :| 0 <= k < |order| && order[k] == i;
    }
  }

  lemma {:induction false} ArrivedAllOrders(order: seq<int>, slots: Slots, fs: seq<Fragment>)
    requires Orders(order, slots)
    ensures Orders(ArrivedAll(order, fs), AddedAll(slots, fs))
  {
    if fs != [] {
      ArrivedAllOrders(order, slots, fs[..|fs| - 1]);
    }
  }

  lemma AbsorbedByFields(before: Slot, f: Fragment, after: Slot)
    requires after.id == if Truthy(f.id) then f.id else before.id
    requires after.kind == if Truthy(f.kind) then f.kind else before.kind
    requires after.name == if Truthy(f.name) then f.name else before.name
    requires after.arguments == if f.arguments.Some? then before.arguments + f.arguments.value else before.arguments
    ensures after == Absorbed(before, f)
  {
  }

  class Accumulator {
    var slots: Slots
    var order: seq<int>

    ghost predicate Valid()
      reads this
    {
      Orders(order, slots)
    }

    constructor ()
      ensures Valid() && slots == map[] && order == []
    {
      slots, order := map[], [];
    }

    // Merges one frame's fragments in.
    method Accumulate(fragments: seq<Fragment>)
      requires Valid()
      modifies this
      ensures Valid()
      ensures slots == AddedAll(old(slots), fragments) && order == ArrivedAll(old(order), fragments)
    {
      hide Orders, Absorbed;
      for k := 0 to |fragments|
        invariant Valid()
        invariant slots == AddedAll(old(slots), fragments[..k]) && order == ArrivedAll(old(order), fragments[..k])
      {
        var f := fragments[k];
        assert fragments[..k + 1][..k] == fragments[..k];
        if f.index.None? {
          continue;
        }
        var i := f.index.value;
        NamesSlots(order, slots, i);
        ArrivedAllOrders(old(order), old(slots), fragments[..k + 1]);
        if i !in slots {
          order := order + [i];
        }
        var slot := if i in slots then slots[i] else EMPTY;
        if Truthy(f.id) {
          slot := slot.(id := f.id);
        }
        if Truthy(f.kind) {
          slot := slot.(kind := f.kind);
        }
        if Truthy(f.name) {
          slot := slot.(name := f.name);
        }
        if f.arguments.Some? {
          slot := slot.(arguments := slot.arguments + f.arguments.value);
        }
        AbsorbedByFields(if i in slots then slots[i] else EMPTY, f, slot);
        slots := slots[i := slot];
      }
      assert fragments[..|fragments|] == fragments;
    }
  }

  datatype ToolCall = ToolCall(id: Option<string>, kind: string, name: Option<string>, arguments: string)

  function Assembled(slot: Slot): ToolCall {
    ToolCall(slot.id, if Truthy(slot.kind) then slot.kind.value else "function", slot.name, slot.arguments)
  }

  ghost predicate Increasing(keys: seq<int>) {
    forall i, j :: 0 <= i < j < |keys| ==> keys[i] < keys[j]
  }

  lemma EmptyOrMember(s: set<int>)
    ensures s == {} || exists x :: x in s
  {
    assert (forall x :: x !in s) ==> s == {};
  }

  lemma {:induction false} HasLeast(s: set<int>)
    requires s != {}
    ensures exists k :: k in s && forall j <- s :: k <= j
  {
    EmptyOrMember(s);
    var x :| x in s;
    if s == {x} {
      assert x in s;
    } else {
      var rest := s - {x};
      HasLeast(rest);
      var k :| k in rest && forall j <- rest :: k <= j;
      var m := if x <= k then x else k;
      assert forall j <- s :: j == x || j in rest;
      assert m in s && forall j <- s :: m <= j;
    }
  }

  function Least(s: set<int>): (k: int)
    requires s != {}
    ensures k in s && forall j <- s :: k <= j
  {
    HasLeast(s);
    var k :| k in s && forall j <- s :: k <= j;
    k
  }

  function SortedKeys(s: set<int>): (keys: seq<int>)
    ensures Increasing(keys)
    ensures forall k :: k in keys <==> k in s
    ensures |keys| == |s|
  {
    if s == {} then []
    else
      var k := Least(s);
      var rest := SortedKeys(s - {k});
      assert forall i :: 0 <= i < |rest| ==> rest[i] in rest;
      [k] + rest
  }

  // The complete list, in index order; nothing at all if nothing was accumulated.
  function AssembledToolCalls(slots: Slots): Option<seq<ToolCall>> {
    if slots == map[] then None
    else
      var keys := SortedKeys(slots.Keys);
      Some(seq(|keys|, k requires 0 <= k < |keys| => assert keys[k] in slots.Keys; Assembled(slots[keys[k]])))
  }

  // ----- What a slot holds -----

  // The fragments of one call, in order of arrival.
  function Own(fs: seq<Fragment>, i: int): seq<Fragment> {
    if fs == [] then []
    else
      var before, f := Own(fs[..|fs| - 1], i), fs[|fs| - 1];
      if f.index == Some(i) then before + [f] else before
  }

  function Collected(fs: seq<Fragment>): Slot {
    if fs == [] then EMPTY else Absorbed(Collected(fs[..|fs| - 1]), fs[|fs| - 1])
  }

  // A slot holds what its own fragments alone amount to.
  lemma {:induction false} SlotIsOwn(fs: seq<Fragment>, i: int)
    ensures i in AddedAll(map[], fs) <==> Own(fs, i) != []
    ensures i in AddedAll(map[], fs) ==> AddedAll(map[], fs)[i] == Collected(Own(fs, i))
  {
    if fs != [] {
      var init, f := fs[..|fs| - 1], fs[|fs| - 1];
      SlotIsOwn(init, i);
      assert (Own(init, i) + [f])[..|Own(init, i)|] == Own(init, i);
    }
  }

  // Interleaving does not matter: the same fragments per call assemble to the same list.
  lemma InterleavingIrrelevant(fs: seq<Fragment>, gs: seq<Fragment>)
    requires forall i :: Own(fs, i) == Own(gs, i)
    ensures AddedAll(map[], fs) == AddedAll(map[], gs)
    ensures AssembledToolCalls(AddedAll(map[], fs)) == AssembledToolCalls(AddedAll(map[], gs))
  {
    hide AddedAll, Own, Collected, AssembledToolCalls;
    SlotsAreOwn(fs);
    SlotsAreOwn(gs);
    var a, b := AddedAll(map[], fs), AddedAll(map[], gs);
    forall i: int
      ensures (i in a <==> i in b) && (i in a ==> a[i] == b[i])
    {
      assert Own(fs, i) == Own(gs, i);
    }
    assert a.Keys == b.Keys;
  }

  function Flat(frames: seq<seq<Fragment>>): seq<Fragment> {
    if frames == [] then [] else Flat(frames[..|frames| - 1]) + frames[|frames| - 1]
  }

  function AddedFrames(slots: Slots, frames: seq<seq<Fragment>>): Slots {
    if frames == [] then slots else AddedAll(AddedFrames(slots, frames[..|frames| - 1]), frames[|frames| - 1])
  }

  lemma {:induction false} AddedAllConcat(slots: Slots, fs: seq<Fragment>, gs: seq<Fragment>)
    ensures AddedAll(slots, fs + gs) == AddedAll(AddedAll(slots, fs), gs)
  {
    if gs == [] {
      assert fs + gs == fs;
    } else {
      AddedAllConcat(slots, fs, gs[..|gs| - 1]);
      assert (fs + gs)[..|fs + gs| - 1] == fs + gs[..|gs| - 1];
    }
  }

  // Nor do frame boundaries.
  lemma {:induction false} FrameBoundariesIrrelevant(slots: Slots, frames: seq<seq<Fragment>>)
    ensures AddedFrames(slots, frames) == AddedAll(slots, Flat(frames))
  {
    if frames != [] {
      FrameBoundariesIrrelevant(slots, frames[..|frames| - 1]);
      AddedAllConcat(slots, Flat(frames[..|frames| - 1]), frames[|frames| - 1]);
    }
  }

  // ----- Round trip -----

  // A call as the model made it.
  datatype Call = Call(id: string, kind: string, name: string, arguments: string)

  function Sent(call: Call): ToolCall {
    ToolCall(Some(call.id), call.kind, Some(call.name), call.arguments)
  }

  function Joined(fs: seq<Fragment>): string {
    if fs == [] then ""
    else
      var before, f := Joined(fs[..|fs| - 1]), fs[|fs| - 1];
      if f.arguments.Some? then before + f.arguments.value else before
  }

  // A way to fragment a call: its arguments in pieces, its id and name sent at least once
  // and never anything else, its kind sent or left to default.
  ghost predicate Fragments(call: Call, fs: seq<Fragment>) {
    && fs != []
    && Joined(fs) == call.arguments
    && call.id != "" && (forall f <- fs :: Truthy(f.id) ==> f.id.value == call.id) && (exists f <- fs :: Truthy(f.id))
    && call.name != "" && (forall f <- fs :: Truthy(f.name) ==> f.name.value == call.name) && (exists f <- fs :: Truthy(f.name))
    && call.kind != "" && (forall f <- fs :: Truthy(f.kind) ==> f.kind.value == call.kind)
    && (call.kind == "function" || exists f <- fs :: Truthy(f.kind))
  }

  lemma {:induction false} CollectedFacts(fs: seq<Fragment>)
    ensures Collected(fs).arguments == Joined(fs)
    ensures Truthy(Collected(fs).id) <==> exists f <- fs :: Truthy(f.id)
    ensures Truthy(Collected(fs).name) <==> exists f <- fs :: Truthy(f.name)
    ensures Truthy(Collected(fs).kind) <==> exists f <- fs :: Truthy(f.kind)
    ensures Truthy(Collected(fs).id) ==> exists f <- fs :: Truthy(f.id) && f.id == Collected(fs).id
    ensures Truthy(Collected(fs).name) ==> exists f <- fs :: Truthy(f.name) && f.name == Collected(fs).name
    ensures Truthy(Collected(fs).kind) ==> exists f <- fs :: Truthy(f.kind) && f.kind == Collected(fs).kind
  {
    if fs != [] {
      var init, f := fs[..|fs| - 1], fs[|fs| - 1];
      CollectedFacts(init);
      assert fs == init + [f] && f in fs;
      assert forall g <- init :: g in fs;
    }
  }

  lemma FragmentsCollect(call: Call, fs: seq<Fragment>)
    requires Fragments(call, fs)
    ensures Assembled(Collected(fs)) == Sent(call)
  {
    CollectedFacts(fs);
  }

  // ----- What an assembled call says, of its own fragments alone -----

  // Missing or empty.
  ghost predicate Blank(s: Option<string>) {
    s == None || s == Some("")
  }

  // The last value given that is neither missing nor empty; None if there is none.
  ghost predicate LastGiven(values: seq<Option<string>>, v: Option<string>) {
    if v.None? then forall x <- values :: Blank(x)
    else
      exists k | 0 <= k < |values| ::
        values[k] == v && !Blank(v) && forall j :: k < j < |values| ==> Blank(values[j])
  }

  function Ids(fs: seq<Fragment>): (r: seq<Option<string>>)
    ensures |r| == |fs| && forall k :: 0 <= k < |fs| ==> r[k] == fs[k].id
  {
    seq(|fs|, k requires 0 <= k < |fs| => fs[k].id)
  }

  function Kinds(fs: seq<Fragment>): (r: seq<Option<string>>)
    ensures |r| == |fs| && forall k :: 0 <= k < |fs| ==> r[k] == fs[k].kind
  {
    seq(|fs|, k requires 0 <= k < |fs| => fs[k].kind)
  }

  function Names(fs: seq<Fragment>): (r: seq<Option<string>>)
    ensures |r| == |fs| && forall k :: 0 <= k < |fs| ==> r[k] == fs[k].name
  {
    seq(|fs|, k requires 0 <= k < |fs| => fs[k].name)
  }

  // The last id and name given, the last kind given or "function", and all arguments joined.
  ghost predicate Says(call: ToolCall, own: seq<Fragment>) {
    && LastGiven(Ids(own), call.id)
    && LastGiven(Names(own), call.name)
    && (LastGiven(Kinds(own), Some(call.kind)) || (call.kind == "function" && LastGiven(Kinds(own), None)))
    && call.arguments == Joined(own)
  }

  lemma LastGivenGrows(values: seq<Option<string>>, v: Option<string>, x: Option<string>)
    requires LastGiven(values, v)
    ensures LastGiven(values + [x], if Blank(x) then v else x)
  {
    var more := values + [x];
    if !Blank(x) {
      assert more[|values|] == x;
    } else if v.Some? {
      var k :| 0 <= k < |values| && values[k] == v && !Blank(v) && forall j :: k < j < |values| ==> Blank(values[j]);
      assert more[k] == v;
    }
  }

  lemma AbsorbedGiven(slot: Slot, f: Fragment)
    ensures Absorbed(slot, f).id == if Blank(f.id) then slot.id else f.id
    ensures Absorbed(slot, f).name == if Blank(f.name) then slot.name else f.name
    ensures Absorbed(slot, f).kind == if Blank(f.kind) then slot.kind else f.kind
    ensures Absorbed(slot, f).arguments == slot.arguments + if f.arguments.Some? then f.arguments.value else ""
  {
  }

  lemma {:induction false} CollectedSays(fs: seq<Fragment>)
    ensures LastGiven(Ids(fs), Collected(fs).id)
    ensures LastGiven(Names(fs), Collected(fs).name)
    ensures LastGiven(Kinds(fs), Collected(fs).kind)
    ensures Collected(fs).arguments == Joined(fs)
  {
    if fs != [] {
      var init, f := fs[..|fs| - 1], fs[|fs| - 1];
      AbsorbedGiven(Collected(init), f);
      CollectedSays(init);
      hide LastGiven, Absorbed, Truthy, Blank, Ids, Names, Kinds;
      LastGivenGrows(Ids(init), Collected(init).id, f.id);
      LastGivenGrows(Names(init), Collected(init).name, f.name);
      LastGivenGrows(Kinds(init), Collected(init).kind, f.kind);
      assert Ids(fs) == Ids(init) + [f.id] && Names(fs) == Names(init) + [f.name] && Kinds(fs) == Kinds(init) + [f.kind];
    }
  }

  lemma AssembledSays(fs: seq<Fragment>)
    ensures Says(Assembled(Collected(fs)), fs)
  {
    CollectedSays(fs);
    var slot := Collected(fs);
    if slot.kind.Some? {
      assert !Blank(slot.kind) by {
        hide Ids, Names;
        var k :| 0 <= k < |Kinds(fs)| && Kinds(fs)[k] == slot.kind && !Blank(slot.kind);
      }
    }
  }

  // The assembled list has one call for every index that occurs, in index order, and each
  // says what its own fragments say.
  ghost predicate Assembles(calls: Option<seq<ToolCall>>, fs: seq<Fragment>) {
    exists indices | Increasing(indices) && (forall i :: i in indices <==> Own(fs, i) != []) ::
      if indices == [] then calls == None
      else calls.Some? && |calls.value| == |indices| && forall k :: 0 <= k < |indices| ==> Says(calls.value[k], Own(fs, indices[k]))
  }

  lemma AssembledMeans(fs: seq<Fragment>)
    ensures Assembles(AssembledToolCalls(AddedAll(map[], fs)), fs)
  {
    hide AddedAll, Own, Collected, Says, SortedKeys;
    var slots := AddedAll(map[], fs);
    SlotsAreOwn(fs);
    var keys := SortedKeys(slots.Keys);
    forall i: int
      ensures i in keys <==> Own(fs, i) != []
    {
      assert i in keys <==> i in slots.Keys;
    }
    if slots == map[] {
      assert keys == [];
    } else {
      assert keys != [] by {
        assert |keys| == |slots.Keys| && |slots.Keys| == |slots|;
      }
      forall k | 0 <= k < |keys|
        ensures Says(AssembledToolCalls(slots).value[k], Own(fs, keys[k]))
      {
        var i := keys[k];
        assert i in keys;
        AssembledSays(Own(fs, i));
      }
    }
  }

  // The indices are kept in order of first arrival.
  lemma {:induction false} InOrderOfArrival(fs: seq<Fragment>, a: nat, b: nat)
    requires a < b < |ArrivedAll([], fs)|
    ensures exists p | 0 <= p < |fs| ::
              && fs[p].index == Some(ArrivedAll([], fs)[a])
              && forall q :: 0 <= q <= p ==> fs[q].index != Some(ArrivedAll([], fs)[b])
  {
    var init, f := fs[..|fs| - 1], fs[|fs| - 1];
    var before := ArrivedAll([], init);
    ArrivedAllOrders([], map[], init);
    if b < |before| {
      InOrderOfArrival(init, a, b);
      var p :| 0 <= p < |init| && init[p].index == Some(before[a]) && forall q :: 0 <= q <= p ==> init[q].index != Some(before[b]);
      assert fs[p] == init[p] && forall q :: 0 <= q <= p ==> fs[q] == init[q];
    } else {
      AddedHasArrived(init, before[a]);
      var p :| 0 <= p < |init| && init[p].index == Some(before[a]);
      assert fs[p] == init[p];
      forall q | 0 <= q <= p
        ensures fs[q].index != f.index
      {
        if fs[q].index == f.index {
          ArrivedStays(init, q);
        }
      }
    }
  }

  lemma {:induction false} AddedHasArrived(fs: seq<Fragment>, i: int)
    requires i in ArrivedAll([], fs)
    ensures exists p | 0 <= p < |fs| :: fs[p].index == Some(i)
  {
    var init := fs[..|fs| - 1];
    if i in ArrivedAll([], init) {
      AddedHasArrived(init, i);
      var p :| 0 <= p < |init| && init[p].index == Some(i);
      assert fs[p] == init[p];
    } else {
      assert fs[|fs| - 1].index == Some(i);
    }
  }

  lemma {:induction false} ArrivedStays(fs: seq<Fragment>, q: nat)
    requires q < |fs| && fs[q].index.Some?
    ensures fs[q].index.value in ArrivedAll([], fs)
  {
    if q < |fs| - 1 {
      ArrivedStays(fs[..|fs| - 1], q);
    }
  }

  lemma BothEmpty(a: seq<int>, b: seq<int>)
    requires forall k :: k in a <==> k in b
    ensures a == [] <==> b == []
  {
    if a != [] {
      var k := a[0];
      assert k in a;
      assert k in b;
    }
    if b != [] {
      var k := b[0];
      assert k in b;
      assert k in a;
    }
  }

  // An increasing sequence is determined by its members.
  lemma {:induction false} IncreasingUnique(a: seq<int>, b: seq<int>)
    requires Increasing(a) && Increasing(b) && forall k :: k in a <==> k in b
    ensures a == b
  {
    BothEmpty(a, b);
    if a != [] {
      assert a[0] in a && b[0] in b;
      assert a[0] == b[0];
      forall k
        ensures k in a[1..] <==> k in b[1..]
      {
        assert k in a[1..] <==> k in a && k != a[0];
        assert k in b[1..] <==> k in b && k != b[0];
      }
      IncreasingUnique(a[1..], b[1..]);
    }
  }

  // Fragment any list of tool calls in any way, interleave the fragments in any way, and
  // accumulating and assembling gives the list back, in index order.
  lemma FragmentingRoundTrip(calls: seq<Call>, indices: seq<int>, fs: seq<Fragment>)
    requires |indices| == |calls| && Increasing(indices)
    requires forall i :: Own(fs, i) != [] <==> i in indices
    requires forall k :: 0 <= k < |calls| ==> Fragments(calls[k], Own(fs, indices[k]))
    ensures calls == [] ==> AssembledToolCalls(AddedAll(map[], fs)) == None
    ensures calls != [] ==>
              AssembledToolCalls(AddedAll(map[], fs))
              == Some(seq(|calls|, k requires 0 <= k < |calls| => Sent(calls[k])))
  {
    hide AddedAll, Own, Collected, Fragments, SortedKeys, Absorbed;
    var slots := AddedAll(map[], fs);
    SlotsAreOwn(fs);
    assert forall i: int :: i in slots.Keys <==> i in indices;
    var keys := SortedKeys(slots.Keys);
    IncreasingUnique(keys, indices);
    forall k | 0 <= k < |calls|
      ensures indices[k] in slots && Assembled(slots[indices[k]]) == Sent(calls[k])
    {
      assert indices[k] in indices;
      FragmentsCollect(calls[k], Own(fs, indices[k]));
    }
    if calls == [] {
      assert slots.Keys == {};
    } else {
      assert indices[0] in slots;
      assert AssembledToolCalls(slots).value == seq(|calls|, k requires 0 <= k < |calls| => Sent(calls[k]));
    }
  }

  lemma SlotsAreOwn(fs: seq<Fragment>)
    ensures forall i: int :: i in AddedAll(map[], fs) <==> Own(fs, i) != []
    ensures forall i: int :: i in AddedAll(map[], fs) ==> AddedAll(map[], fs)[i] == Collected(Own(fs, i))
  {
    forall i: int
      ensures i in AddedAll(map[], fs) <==> Own(fs, i) != []
      ensures i in AddedAll(map[], fs) ==> AddedAll(map[], fs)[i] == Collected(Own(fs, i))
    {
      SlotIsOwn(fs, i);
    }
  }
}
