/**
 * The aggregate both containers compute over their wrapper map: the form is
 * valid iff every registered wrapper last reported valid.
 */
module Registry {

  /** Wrapper id to the validity it last reported. */
  type WrapperMap = map<nat, bool>

  predicate AllValid(m: WrapperMap) {
    forall id :: id in m ==> m[id]
  }

  /** An empty map is valid. */
  lemma EmptyIsValid()
    ensures AllValid(map[])
  {
  }

  /** After an upsert the aggregate is the new report AND the aggregate of the other entries. */
  lemma {:induction false} UpsertValidity(m: WrapperMap, id: nat, b: bool)
    ensures AllValid(m[id := b]) <==> b && AllValid(m - {id})
  {
    var n := m[id := b];
    if b && AllValid(m - {id}) {
      forall j | j in n ensures n[j] {
        if j != id { assert j in m - {id}; }
      }
    }
    if AllValid(n) {
      assert id in n;
      forall j | j in m - {id} ensures (m - {id})[j] {
        assert j in n;
      }
    }
  }

  /** Removing an entry never makes the aggregate false. */
  lemma {:induction false} RemovalKeepsValidity(m: WrapperMap, id: nat)
    requires AllValid(m)
    ensures AllValid(m - {id})
  {
    forall j | j in m - {id} ensures (m - {id})[j] {
      assert j in m;
    }
  }

  /** Removing the only invalid entry makes the aggregate true. */
  lemma {:induction false} RemovingOnlyInvalid(m: WrapperMap, id: nat)
    requires forall j :: j in m && j != id ==> m[j]
    ensures AllValid(m - {id})
  {
    forall j | j in m - {id} ensures (m - {id})[j] {
      assert j in m && j != id;
    }
  }

  /** A call a wrapper makes into the container: `unregisterId(id)` or `onWrapperValidate(id, isValid)`. */
  datatype Callback = Unregister(id: nat) | Report(id: nat, isValid: bool)

  /** The map after the container handles one call. */
  function Apply(m: WrapperMap, c: Callback): (r: WrapperMap)
    ensures c.Unregister? ==> c.id !in r
    ensures c.Report? ==> c.id in r && r[c.id] == c.isValid
    ensures forall j :: j != c.id ==> (j in r <==> j in m) && (j in m ==> r[j] == m[j])
  {
    match c
    case Unregister(id) => m - {id}
    case Report(id, v) => m[id := v]
  }

  /** The map after the container handles `cs` in order. */
  function Replay(m: WrapperMap, cs: seq<Callback>): WrapperMap
  {
    if cs == [] then m else Apply(Replay(m, cs[..|cs| - 1]), cs[|cs| - 1])
  }

  /** Handling two batches of calls one after the other is handling their concatenation. */
  lemma {:induction false} ReplayAppend(m: WrapperMap, a: seq<Callback>, b: seq<Callback>)
    ensures Replay(m, a + b) == Replay(Replay(m, a), b)
  {
    if b == [] {
      assert a + b == a;
    } else {
      var b' := b[..|b| - 1];
      assert (a + b)[..|a + b| - 1] == a + b';
      ReplayAppend(m, a, b');
    }
  }

  /** An id that is absent stays absent while no call reports for it. */
  lemma {:induction false} AbsentWithoutReport(m: WrapperMap, cs: seq<Callback>, id: nat)
    requires id !in m
    requires forall j :: 0 <= j < |cs| ==> !(cs[j].Report? && cs[j].id == id)
    ensures id !in Replay(m, cs)
  {
    if cs != [] {
      AbsentWithoutReport(m, cs[..|cs| - 1], id);
    }
  }

  /** An id that is present stays present while no call unregisters it. */
  lemma {:induction false} PresentWithoutUnregister(m: WrapperMap, cs: seq<Callback>, id: nat)
    requires id in m
    requires forall j :: 0 <= j < |cs| ==> !(cs[j].Unregister? && cs[j].id == id)
    ensures id in Replay(m, cs)
  {
    if cs != [] {
      PresentWithoutUnregister(m, cs[..|cs| - 1], id);
    }
  }

  /**
   * After `unregisterId(id)`, the container holds no entry for `id` as long
   * as no later call reports for it; one later report brings the entry back
   * for good, unless `id` is unregistered again.
   */
  lemma UnregisterThenReport(m: WrapperMap, id: nat, later: seq<Callback>, v: bool)
    ensures (forall j :: 0 <= j < |later| ==> !(later[j].Report? && later[j].id == id))
            ==> id !in Replay(m, [Unregister(id)] + later)
    ensures (forall j :: 0 <= j < |later| ==> !(later[j].Unregister? && later[j].id == id))
            ==> id in Replay(m, [Unregister(id), Report(id, v)] + later)
  {
    ReplayAppend(m, [Unregister(id)], later);
    assert Replay(m, [Unregister(id)]) == Apply(m, Unregister(id));
    if forall j :: 0 <= j < |later| ==> !(later[j].Report? && later[j].id == id) {
      AbsentWithoutReport(Replay(m, [Unregister(id)]), later, id);
    }
    ReplayAppend(m, [Unregister(id), Report(id, v)], later);
    assert [Unregister(id), Report(id, v)][..1] == [Unregister(id)];
    if forall j :: 0 <= j < |later| ==> !(later[j].Unregister? && later[j].id == id) {
      PresentWithoutUnregister(Replay(m, [Unregister(id), Report(id, v)]), later, id);
    }
  }
}
