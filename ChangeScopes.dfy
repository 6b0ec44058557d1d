/** The pin-change registration scopes that LinuxGpio/DummyGpioPin.cs and
    LinuxGpio/LinuxGPIOPin.cs both keep: a list of scopes, each owning an
    AwaitableQueue<bool> of pin values. A scope object is identified here by
    a number; registering appends a new scope, disposing a scope removes it
    from the list, and a pin change is enqueued into every scope in list
    order. */
module ChangeScopes {
  import opened Outcomes
  import opened AwaitableQueue

  datatype Scope = Scope(id: nat, changes: QueueState<bool>)

  type Registry = seq<Scope>

  /** No two entries are the same scope object. */
  predicate Distinct(reg: Registry) {
    forall i, j :: 0 <= i < j < |reg| ==> reg[i].id != reg[j].id
  }

  /** Every queue of a registered scope is live: a scope is removed from the
      list before its queue is disposed. */
  predicate Open(reg: Registry) {
    forall k :: 0 <= k < |reg| ==> !reg[k].changes.disposed && Valid(reg[k].changes)
  }

  predicate WellFormed(reg: Registry) {
    Distinct(reg) && Open(reg)
  }

  predicate Registered(reg: Registry, id: nat) {
    exists k :: 0 <= k < |reg| && reg[k].id == id
  }

  /** An identity no registered scope has (a newly allocated object). */
  function FreshId(reg: Registry): (r: nat)
    ensures forall k :: 0 <= k < |reg| ==> reg[k].id < r
    decreases |reg|
  {
    if |reg| == 0 then 0
    else
      var m := FreshId(reg[1..]);
      assert forall k :: 1 <= k < |reg| ==> reg[k].id == reg[1..][k - 1].id;
      if reg[0].id < m then m else reg[0].id + 1
  }

  /** CreateAndRegisterPinChangedScope: a new scope with an empty queue is
      added at the end of the list. */
  function Register(reg: Registry): (r: (nat, Registry))
    ensures !Registered(reg, r.0)
    ensures r.1 == reg + [Scope(r.0, Empty())]
    ensures WellFormed(reg) ==> WellFormed(r.1)
  {
    (FreshId(reg), reg + [Scope(FreshId(reg), Empty())])
  }

  /** The position of the first entry for scope id, as List.Remove looks for it. */
  function IndexOf(reg: Registry, id: nat): (r: Option<nat>)
    ensures r.None? <==> !Registered(reg, id)
    ensures r.Some? ==> r.value < |reg| && reg[r.value].id == id
                        && forall k :: 0 <= k < r.value ==> reg[k].id != id
    decreases |reg|
  {
    if |reg| == 0 then None
    else if reg[0].id == id then Some(0)
    else match IndexOf(reg[1..], id)
      case None => None
      case Some(k) => Some(k + 1)
  }

  /** DeregisterPinChangeScope (List.Remove): drops the first entry for id;
      an absent scope leaves the list as it is. */
  function Deregister(reg: Registry, id: nat): (r: Registry)
    ensures !Registered(reg, id) ==> r == reg
    ensures Registered(reg, id) ==> |r| == |reg| - 1
  {
    match IndexOf(reg, id)
    case None => reg
    case Some(k) => reg[..k] + reg[k + 1..]
  }

  /** Removing a scope removes only that scope: the others keep their
      queues and their order, and the removed one is no longer registered. */
  lemma DeregisterOnlyThat(reg: Registry, id: nat)
    requires WellFormed(reg) && Registered(reg, id)
    ensures !Registered(Deregister(reg, id), id)
    ensures WellFormed(Deregister(reg, id))
    ensures exists k :: 0 <= k < |reg| && reg[k].id == id && Deregister(reg, id) == reg[..k] + reg[k + 1..]
  {
    var k := IndexOf(reg, id).value;
    var r := reg[..k] + reg[k + 1..];
    forall j | 0 <= j < |r| ensures r[j].id != id && r[j] == (if j < k then reg[j] else reg[j + 1]) {
      if j < k { assert r[j] == reg[j]; } else { assert r[j] == reg[j + 1]; }
    }
  }

  /** Disposing the scope just registered gives back the list as it was. */
  lemma RegisterThenDeregister(reg: Registry)
    ensures Deregister(Register(reg).1, Register(reg).0) == reg
  {
    var (id, r) := Register(reg);
    assert IndexOf(r, id) == Some(|reg|) by {
      IndexOfAppend(reg, Scope(id, Empty()), id);
    }
    assert r[..|reg|] == reg;
  }

  lemma {:induction false} IndexOfAppend(reg: Registry, s: Scope, id: nat)
    requires !Registered(reg, id) && s.id == id
    ensures IndexOf(reg + [s], id) == Some(|reg|)
    decreases |reg|
  {
    if |reg| > 0 {
      assert (reg + [s])[1..] == reg[1..] + [s];
      assert !Registered(reg[1..], id) by {
        forall k | 0 <= k < |reg| - 1 ensures reg[1..][k].id != id { assert reg[1..][k] == reg[k + 1]; }
      }
      IndexOfAppend(reg[1..], s, id);
    }
  }

  /** The effect of NotifyAllScopesOfPinChange(v): v is enqueued into every
      scope, and nothing else changes. */
  function Notify(reg: Registry, v: bool): (r: Registry)
    requires Open(reg)
    ensures |r| == |reg|
    ensures forall k :: 0 <= k < |reg| ==>
      r[k].id == reg[k].id && EnqueueStep(reg[k].changes, v) == Ok(r[k].changes)
      && r[k].changes.items == reg[k].changes.items + [v]
    ensures Open(r) && (Distinct(reg) ==> Distinct(r))
  {
    seq(|reg|, k requires 0 <= k < |reg| =>
      Scope(reg[k].id, QueueState(reg[k].changes.items + [v], reg[k].changes.permits + 1, false)))
  }

  /** The foreach over the scopes: each one's queue gets v in turn. */
  method NotifyAll(reg: Registry, v: bool) returns (r: Registry)
    requires Open(reg)
    ensures r == Notify(reg, v)
  {
    r := reg;
    var i := 0;
    while i < |r|
      invariant 0 <= i <= |r| == |reg|
      invariant forall k :: 0 <= k < i ==> r[k] == Notify(reg, v)[k]
      invariant forall k :: i <= k < |r| ==> r[k] == reg[k]
    {
      var scope := r[i];
      var q := scope.changes;
      r := r[i := Scope(scope.id, QueueState(q.items + [v], q.permits + 1, q.disposed))];
      i := i + 1;
    }
  }

  /** Delivering several changes one after the other. */
  function NotifyEach(reg: Registry, vs: seq<bool>): (r: Registry)
    requires Open(reg)
    ensures Open(r) && |r| == |reg|
    decreases |vs|
  {
    if |vs| == 0 then reg else NotifyEach(Notify(reg, vs[0]), vs[1..])
  }

  /** Nothing is lost, duplicated or reordered: after a run of changes every
      scope's queue holds what it held before followed by exactly those
      changes, in order. */
  lemma NotifyEachAppends(reg: Registry, vs: seq<bool>)
    requires Open(reg)
    ensures forall k :: 0 <= k < |reg| ==>
      NotifyEach(reg, vs)[k].id == reg[k].id && NotifyEach(reg, vs)[k].changes.items == reg[k].changes.items + vs
  {
    forall k | 0 <= k < |reg|
      ensures NotifyEach(reg, vs)[k].id == reg[k].id && NotifyEach(reg, vs)[k].changes.items == reg[k].changes.items + vs
    {
      NotifyEachAt(reg, vs, k);
    }
  }

  /** The same for one scope, by induction on the changes. */
  lemma {:induction false} NotifyEachAt(reg: Registry, vs: seq<bool>, k: nat)
    requires Open(reg) && k < |reg|
    ensures NotifyEach(reg, vs)[k].id == reg[k].id
    ensures NotifyEach(reg, vs)[k].changes.items == reg[k].changes.items + vs
    decreases |vs|
  {
    if |vs| == 0 {
      assert reg[k].changes.items + vs == reg[k].changes.items;
    } else {
      var before := reg[k].changes.items;
      assert (before + [vs[0]]) + vs[1..] == before + vs by {
        assert vs == [vs[0]] + vs[1..];
      }
      NotifyEachAt(Notify(reg, vs[0]), vs[1..], k);
    }
  }

  /** A scope registered after some changes sees only the later ones. */
  lemma LateScopeSeesLaterChanges(reg: Registry, before: seq<bool>, after: seq<bool>)
    requires Open(reg)
    ensures Open(Register(NotifyEach(reg, before)).1)
    ensures NotifyEach(Register(NotifyEach(reg, before)).1, after)[|reg|].changes.items == after
  {
    var r := Register(NotifyEach(reg, before)).1;
    NotifyEachAppends(r, after);
    assert r[|reg|].changes.items == [];
  }
}
