/** Transaction ids and snapshots: what a snapshot sees never changes. */
module Snapshots {
  datatype State = Active | Committed | Aborted

  datatype Snapshot = Snapshot(xmin: nat, xmax: nat, active: set<nat>)

  /** The manager as a value: its counter and sets, and the state of every handle it has given out. */
  datatype Manager = Manager(next: nat, active: set<nat>, committed: set<nat>, handles: map<nat, State>)

  const START := Manager(1, {}, {}, map[])

  ghost predicate Inv(m: Manager) {
    && m.next >= 1
    && (forall id :: id in m.handles <==> 1 <= id < m.next)
    && (forall id :: id in m.active <==> id in m.handles && m.handles[id] == Active)
    && (forall id :: id in m.committed <==> id in m.handles && m.handles[id] == Committed)
  }

  ghost predicate IsLeast(n: nat, s: set<nat>) {
    n in s && forall x :: x in s ==> n <= x
  }

  lemma LeastExists(s: set<nat>)
    requires s != {}
    ensures exists n :: IsLeast(n, s)
  {
    var x :| x in s;
    if s == {x} {
      assert IsLeast(x, s);
    } else {
      var rest := s - {x};
      assert x !in rest && s == rest + {x};
      LeastExists(rest);
      var y :| IsLeast(y, rest);
      assert IsLeast(if x < y then x else y, s);
    }
  }

  /** A snapshot of m taken for owner, when ids up to next have been given out. */
  ghost predicate Shows(s: Snapshot, m: Manager, next: nat, owner: nat) {
    && s.xmax == next
    && s.active == m.active - {owner}
    && (if m.active == {} then s.xmin == next else IsLeast(s.xmin, m.active))
  }

  datatype Step = Begin | Commit(id: nat) | Abort(id: nat)

  function Next(m: Manager, step: Step): Manager {
    match step
    case Begin => Manager(m.next + 1, m.active + {m.next}, m.committed, m.handles[m.next := Active])
    case Commit(id) =>
      if id !in m.handles || m.handles[id] != Active then m
      else Manager(m.next, m.active - {id}, m.committed + {id}, m.handles[id := Committed])
    case Abort(id) =>
      if id !in m.handles || m.handles[id] != Active then m
      else Manager(m.next, m.active - {id}, m.committed, m.handles[id := Aborted])
  }

  function Run(m: Manager, steps: seq<Step>): Manager
    decreases steps
  {
    if steps == [] then m else Run(Next(m, steps[0]), steps[1..])
  }

  lemma NextKeeps(m: Manager, step: Step)
    requires Inv(m)
    ensures Inv(Next(m, step))
  {
  }

  lemma {:induction false} RunKeeps(m: Manager, steps: seq<Step>)
    requires Inv(m)
    ensures Inv(Run(m, steps))
    decreases steps
  {
    hide Inv, Next;
    if steps != [] {
      NextKeeps(m, steps[0]);
      RunKeeps(Next(m, steps[0]), steps[1..]);
    }
  }

  // ---- What became of each transaction ----

  function Begun(steps: seq<Step>): nat {
    if steps == [] then 0
    else Begun(steps[..|steps| - 1]) + if steps[|steps| - 1].Begin? then 1 else 0
  }

  predicate Ends(step: Step, id: nat) {
    step == Commit(id) || step == Abort(id)
  }

  /** Step j is the first commit or abort of the transaction after the Begin that gave out its id. */
  ghost predicate EndedAt(steps: seq<Step>, id: nat, j: nat) {
    && 1 <= id && j < |steps| && Ends(steps[j], id) && id <= Begun(steps[..j])
    && forall i :: 0 <= i < j && id <= Begun(steps[..i]) ==> !Ends(steps[i], id)
  }

  lemma {:induction false} RunSnoc(m: Manager, steps: seq<Step>, step: Step)
    ensures Run(m, steps + [step]) == Next(Run(m, steps), step)
    decreases steps
  {
    hide Next;
    if steps == [] {
      assert steps + [step] == [step] && [step][1..] == [];
    } else {
      assert (steps + [step])[1..] == steps[1..] + [step];
      RunSnoc(Next(m, steps[0]), steps[1..], step);
    }
  }

  lemma EndedSnoc(steps: seq<Step>, step: Step, id: nat, j: nat)
    ensures j < |steps| ==> (EndedAt(steps + [step], id, j) <==> EndedAt(steps, id, j))
    ensures EndedAt(steps + [step], id, |steps|) <==>
              && 1 <= id <= Begun(steps) && Ends(step, id)
              && forall i :: 0 <= i < |steps| && id <= Begun(steps[..i]) ==> !Ends(steps[i], id)
  {
    hide Begun;
    var more := steps + [step];
    assert more[..|steps|] == steps;
    assert forall i :: 0 <= i <= |steps| ==> more[..i] == steps[..i];
  }

  lemma {:induction false} FirstEnd(steps: seq<Step>, id: nat, k: nat) returns (j: nat)
    requires 1 <= id && k < |steps| && id <= Begun(steps[..k]) && Ends(steps[k], id)
    ensures j <= k && EndedAt(steps, id, j)
    decreases k
  {
    hide Begun;
    if i :| 0 <= i < k && id <= Begun(steps[..i]) && Ends(steps[i], id) {
      j := FirstEnd(steps, id, i);
    } else {
      j := k;
    }
  }

  ghost predicate EndedBy(steps: seq<Step>, id: nat, end: Step) {
    exists j: nat :: EndedAt(steps, id, j) && steps[j] == end
  }

  ghost predicate Unended(steps: seq<Step>, id: nat) {
    forall j: nat :: !EndedAt(steps, id, j)
  }

  /** What became of a transaction, told by the steps alone. */
  ghost predicate Fate(steps: seq<Step>, id: nat) {
    var m := Run(START, steps);
    && m.next == 1 + Begun(steps)
    && (id in m.committed <==> EndedBy(steps, id, Commit(id)))
    && (id in m.handles && m.handles[id] == Aborted <==> EndedBy(steps, id, Abort(id)))
    && (id in m.active <==> 1 <= id <= Begun(steps) && Unended(steps, id))
  }

  lemma StartInv()
    ensures Inv(START)
  {
  }

  lemma EndedBySnoc(steps: seq<Step>, step: Step, id: nat, now: bool)
    requires EndedAt(steps + [step], id, |steps|) == now
    ensures EndedBy(steps + [step], id, Commit(id)) <==> EndedBy(steps, id, Commit(id)) || (now && step == Commit(id))
    ensures EndedBy(steps + [step], id, Abort(id)) <==> EndedBy(steps, id, Abort(id)) || (now && step == Abort(id))
    ensures Unended(steps + [step], id) <==> Unended(steps, id) && !now
    ensures !Unended(steps, id) ==> 1 <= id <= Begun(steps)
    ensures EndedBy(steps, id, Commit(id)) || EndedBy(steps, id, Abort(id)) ==> !Unended(steps, id)
  {
    hide EndedAt, Begun;
    var more := steps + [step];
    forall j: nat
      ensures j < |steps| ==> (EndedAt(more, id, j) <==> EndedAt(steps, id, j)) && more[j] == steps[j]
      ensures j > |steps| ==> !EndedAt(more, id, j)
      ensures j >= |steps| ==> !EndedAt(steps, id, j)
      ensures EndedAt(steps, id, j) ==> 1 <= id <= Begun(steps)
    {
      EndedSnoc(steps, step, id, j);
      EndedWithin(steps, id, j);
      EndedWithin(more, id, j);
    }
  }

  lemma FateStep(steps: seq<Step>, step: Step, id: nat)
    requires Fate(steps, id) && Inv(Run(START, steps))
    ensures Fate(steps + [step], id)
  {
    hide Run, EndedAt, EndedBy, Unended;
    var m, more := Run(START, steps), steps + [step];
    RunSnoc(START, steps, step);
    assert more[..|steps|] == steps && Begun(more) == Begun(steps) + if step.Begin? then 1 else 0;
    hide Begun;
    EndsNow(steps, step, id);
    EndedBySnoc(steps, step, id, EndedAt(more, id, |steps|));
    NextFate(m, step, id);
    hide Next, Inv;
  }

  /** What one step does to one transaction. */
  lemma NextFate(m: Manager, step: Step, id: nat)
    requires Inv(m)
    ensures var k := Next(m, step);
            && k.next == m.next + (if step.Begin? then 1 else 0)
            && (id in k.committed <==> id in m.committed || (step == Commit(id) && id in m.active))
            && (id in k.active <==> (id in m.active && !Ends(step, id)) || (step.Begin? && id == m.next))
            && (id in k.handles && k.handles[id] == Aborted <==>
                  (id in m.handles && m.handles[id] == Aborted) || (step == Abort(id) && id in m.active))
    ensures id in m.active || id in m.committed || (id in m.handles && m.handles[id] == Aborted) ==> 1 <= id < m.next
  {
  }

  lemma EndedWithin(steps: seq<Step>, id: nat, j: nat)
    ensures EndedAt(steps, id, j) ==> j < |steps| && 1 <= id <= Begun(steps)
  {
    if EndedAt(steps, id, j) {
      BegunGrows(steps, j);
    }
  }

  lemma {:induction false} BegunGrows(steps: seq<Step>, j: nat)
    requires j <= |steps|
    ensures Begun(steps[..j]) <= Begun(steps)
  {
    if j == |steps| {
      assert steps[..j] == steps;
    } else {
      var front := steps[..|steps| - 1];
      assert front[..j] == steps[..j];
      BegunGrows(front, j);
    }
  }

  lemma EndsNow(steps: seq<Step>, step: Step, id: nat)
    requires Fate(steps, id)
    ensures EndedAt(steps + [step], id, |steps|) <==> Ends(step, id) && id in Run(START, steps).active
  {
    hide Begun, Run;
    EndedSnoc(steps, step, id, |steps|);
    if 1 <= id <= Begun(steps) && Unended(steps, id) {
      forall i | 0 <= i < |steps| && id <= Begun(steps[..i])
        ensures !Ends(steps[i], id)
      {
        if Ends(steps[i], id) {
          var j := FirstEnd(steps, id, i);
        }
      }
    }
    if j: nat :| EndedAt(steps, id, j) {
      assert Ends(steps[j], id) && id <= Begun(steps[..j]);
    }
  }

  /**
   * Over every run, a transaction is committed exactly when a commit is the first of its commits and aborts after the
   * Begin that gave out its id, aborted exactly when an abort is, and active exactly when there is none.
   */
  lemma {:induction false} EveryFate(steps: seq<Step>, id: nat)
    ensures Fate(steps, id)
  {
    hide Fate, Inv;
    if steps == [] {
      NoFate(id);
    } else {
      var front := steps[..|steps| - 1];
      EveryFate(front, id);
      StartInv();
      RunKeeps(START, front);
      FateStep(front, steps[|steps| - 1], id);
      assert front + [steps[|steps| - 1]] == steps;
    }
  }

  lemma NoFate(id: nat)
    ensures Fate([], id)
  {
  }

  /** committed_before_snapshot, for transactions other than the owner. */
  ghost predicate Sees(s: Snapshot, owner: nat, m: Manager, id: nat) {
    id != owner && id < s.xmax && id !in s.active && id in m.committed
  }

  /** Finished transactions stay as they finished. */
  lemma {:induction false} FinishedStays(m: Manager, steps: seq<Step>, id: nat)
    requires Inv(m) && id < m.next && id !in m.active
    ensures id in Run(m, steps).committed <==> id in m.committed
    decreases steps
  {
    if steps != [] {
      NextKeeps(m, steps[0]);
      var m' := Next(m, steps[0]);
      assert id < m'.next && id !in m'.active && (id in m'.committed <==> id in m.committed);
      FinishedStays(m', steps[1..], id);
    }
  }

  /** Begin: the snapshot is of the state before, but its xmax lies behind the new transaction's own id. */
  lemma BeginSnapshotStable(m: Manager, s: Snapshot, steps: seq<Step>, id: nat)
    requires Inv(m) && Shows(s, m, m.next + 1, m.next)
    ensures Sees(s, m.next, Run(Next(m, Begin), steps), id) <==> Sees(s, m.next, Next(m, Begin), id)
  {
    NextKeeps(m, Begin);
    if id != m.next && id < s.xmax && id !in s.active {
      FinishedStays(Next(m, Begin), steps, id);
    }
  }

  /** CurrentSnapshot: of the state now, without the asker. */
  lemma CurrentSnapshotStable(m: Manager, s: Snapshot, owner: nat, steps: seq<Step>, id: nat)
    requires Inv(m) && Shows(s, m, m.next, owner)
    ensures Sees(s, owner, Run(m, steps), id) <==> Sees(s, owner, m, id)
  {
    if id != owner && id < s.xmax && id !in s.active {
      FinishedStays(m, steps, id);
    }
  }

  /**
   * Over every run, a snapshot sees exactly the other transactions whose commit came before it was taken, both the one
   * of a new transaction and one asked for, and it does so for ever.
   */
  lemma SeesThePast(before: seq<Step>, later: seq<Step>, s: Snapshot, owner: nat, id: nat)
    ensures var m := Run(START, before);
            && (Shows(s, m, m.next + 1, m.next) ==>
                  (Sees(s, m.next, Run(Next(m, Begin), later), id) <==> EndedBy(before, id, Commit(id))))
            && (Shows(s, m, m.next, owner) ==>
                  (Sees(s, owner, Run(m, later), id) <==> id != owner && EndedBy(before, id, Commit(id))))
  {
    hide EndedBy, Run;
    var m := Run(START, before);
    StartInv();
    RunKeeps(START, before);
    EveryFate(before, id);
    if Shows(s, m, m.next + 1, m.next) {
      BeginSnapshotStable(m, s, later, id);
    }
    if Shows(s, m, m.next, owner) {
      CurrentSnapshotStable(m, s, owner, later, id);
    }
  }

  /** Everything below xmin but the owner had finished when the snapshot was taken. */
  lemma BelowXminFinished(m: Manager, s: Snapshot, next: nat, owner: nat, id: nat)
    requires Inv(m) && Shows(s, m, next, owner)
    requires next == m.next || (next == m.next + 1 && owner == m.next)
    requires 1 <= id < s.xmin && id != owner
    ensures id in m.handles && m.handles[id] != Active
  {
    if m.active != {} {
      assert s.xmin in m.active;
    }
  }

  // ---- The manager object ----

  class Handle {
    const id: nat
    const snapshot: Snapshot
    var state: State

    constructor (id: nat, snapshot: Snapshot)
      ensures this.id == id && this.snapshot == snapshot && state == Active
    {
      this.id, this.snapshot, state := id, snapshot, Active;
    }
  }

  class TransactionManager {
    var nextId: nat
    var active: set<nat>
    var committed: set<nat>
    ghost var handles: map<nat, Handle>

    constructor ()
      ensures Valid() && View() == START
    {
      nextId, active, committed, handles := 1, {}, {}, map[];
    }

    ghost function View(): Manager
      reads this, handles.Values
    {
      Manager(nextId, active, committed, map id | id in handles :: handles[id].state)
    }

    /** Each id has one handle, and the sets agree with the handles. */
    ghost predicate Valid()
      reads this, handles.Values
    {
      Inv(View()) && forall id :: id in handles ==> handles[id].id == id
    }

    method BeginTransaction() returns (h: Handle)
      requires Valid()
      modifies this
      ensures Valid() && fresh(h) && h.id == old(nextId) && h.state == Active
      ensures handles == old(handles)[h.id := h]
      ensures View() == Next(old(View()), Begin)
      ensures Shows(h.snapshot, old(View()), old(nextId) + 1, h.id)
    {
      ghost var before := View();
      var id := nextId;
      nextId := nextId + 1;
      var xmin := nextId;
      if active != {} {
        LeastExists(active);
        xmin :| xmin in active && forall x :: x in active ==> xmin <= x;
      }
      h := new Handle(id, Snapshot(xmin, nextId, active));
      assert active - {id} == active;
      active := active + {id};
      handles := handles[id := h];
      assert View() == Next(before, Begin);
      NextKeeps(before, Begin);
    }

    method CommitTransaction(h: Handle?) returns (ok: bool)
      requires Valid() && (h != null ==> h.id in handles && handles[h.id] == h)
      modifies this, h
      ensures Valid() && handles == old(handles)
      ensures ok <==> h != null && old(h.state) == Active
      ensures View() == if h == null then old(View()) else Next(old(View()), Commit(h.id))
      ensures ok ==> h.state == Committed && committed == old(committed) + {h.id} && active == old(active) - {h.id}
      ensures !ok ==> unchanged(this) && (h != null ==> unchanged(h))
    {
      ghost var before := View();
      if h == null || h.state != Active {
        return false;
      }
      active := active - {h.id};
      committed := committed + {h.id};
      h.state := Committed;
      assert View().handles == Next(before, Commit(h.id)).handles by { OnlyOne(handles, h); }
      NextKeeps(before, Commit(h.id));
      ok := true;
    }

    method AbortTransaction(h: Handle?) returns (ok: bool)
      requires Valid() && (h != null ==> h.id in handles && handles[h.id] == h)
      modifies this, h
      ensures Valid() && handles == old(handles)
      ensures ok <==> h != null && old(h.state) == Active
      ensures View() == if h == null then old(View()) else Next(old(View()), Abort(h.id))
      ensures ok ==> h.state == Aborted && committed == old(committed) && active == old(active) - {h.id}
      ensures !ok ==> unchanged(this) && (h != null ==> unchanged(h))
    {
      ghost var before := View();
      if h == null || h.state != Active {
        return false;
      }
      active := active - {h.id};
      h.state := Aborted;
      assert View().handles == Next(before, Abort(h.id)).handles by { OnlyOne(handles, h); }
      NextKeeps(before, Abort(h.id));
      ok := true;
    }

    method IsCommitted(id: nat) returns (b: bool)
      requires Valid()
      ensures b <==> id in handles && handles[id].state == Committed
    {
      b := id in committed;
    }

    method CurrentSnapshot(self: nat) returns (s: Snapshot)
      requires Valid()
      ensures Shows(s, View(), nextId, self)
    {
      var xmin := nextId;
      if active != {} {
        LeastExists(active);
        xmin :| xmin in active && forall x :: x in active ==> xmin <= x;
      }
      s := Snapshot(xmin, nextId, active - {self});
    }
  }

  lemma OnlyOne(handles: map<nat, Handle>, h: Handle)
    requires forall id :: id in handles ==> handles[id].id == id
    ensures forall id :: id in handles && handles[id] == h ==> id == h.id
  {
  }
}
