/**
 * Any number of atomic minimum (or maximum) calls on one shared cell. A call is a retry loop over two
 * atomic steps, a load and a compare-and-swap, and the steps of different calls interleave freely.
 */
module Atomics {
  datatype Op = Min | Max

  /** std::min and std::max: what the loop tries to store. */
  function Pick(op: Op, a: int, b: int): int {
    if op.Min? then if b < a then b else a
    else if a < b then b else a
  }

  /** a lies strictly further in the direction that op moves the cell. */
  predicate Beyond(op: Op, a: int, b: int) {
    if op.Min? then a < b else a > b
  }

  datatype Pc = Start | Loaded(curr: int)

  /** A call in progress; its failed attempts, and how many moves and finished calls it found, are history. */
  datatype Call = Call(val: int, pc: Pc, fails: nat, since: nat, joined: nat)

  /** A finished call and what it returned. */
  datatype Done = Done(id: nat, val: int, returned: int)

  /** The shared cell and the calls; finished calls, and the number of times the cell moved, are history. */
  datatype State = State(cell: int, calls: map<nat, Call>, finished: seq<Done>, moves: nat)

  datatype Step = Begin(id: nat, val: int) | Load(id: nat) | Cas(id: nat)

  function Init(cell: int): State {
    State(cell, map[], [], 0)
  }

  predicate Enabled(s: State, step: Step) {
    match step
    case Begin(id, _) => id !in s.calls && forall i :: 0 <= i < |s.finished| ==> s.finished[i].id != id
    case Load(id) => id in s.calls && s.calls[id].pc.Start?
    case Cas(id) => id in s.calls && s.calls[id].pc.Loaded?
  }

  function Apply(op: Op, s: State, step: Step): State
    requires Enabled(s, step)
  {
    match step
    case Begin(id, val) => s.(calls := s.calls[id := Call(val, Start, 0, s.moves, |s.finished|)])
    case Load(id) => s.(calls := s.calls[id := s.calls[id].(pc := Loaded(s.cell))])
    case Cas(id) =>
      var c := s.calls[id];
      if s.cell == c.pc.curr then
        var next := Pick(op, c.pc.curr, c.val);
        var moves := if next == s.cell then s.moves else s.moves + 1;
        State(next, s.calls - {id}, s.finished + [Done(id, c.val, c.pc.curr)], moves)
      else
        s.(calls := s.calls[id := c.(pc := Start, fails := c.fails + 1)])
  }

  predicate Legal(op: Op, s: State, steps: seq<Step>)
    decreases |steps|
  {
    steps == [] || (Enabled(s, steps[0]) && Legal(op, Apply(op, s, steps[0]), steps[1..]))
  }

  function Run(op: Op, s: State, steps: seq<Step>): State
    requires Legal(op, s, steps)
    decreases |steps|
  {
    if steps == [] then s else Run(op, Apply(op, s, steps[0]), steps[1..])
  }

  // ---- The sequential meaning ----

  /** The extreme of the initial value and the arguments of the calls, in the order they finished. */
  function Extreme(op: Op, init: int, calls: seq<Done>): int {
    if calls == [] then init
    else Pick(op, Extreme(op, init, calls[..|calls| - 1]), calls[|calls| - 1].val)
  }

  /** It is one of those values, and none of them lies beyond it. */
  lemma {:induction false} ExtremeIsExtreme(op: Op, init: int, calls: seq<Done>)
    ensures var e := Extreme(op, init, calls);
      && (e == init || exists i :: 0 <= i < |calls| && calls[i].val == e)
      && !Beyond(op, init, e) && forall i :: 0 <= i < |calls| ==> !Beyond(op, calls[i].val, e)
  {
    if calls != [] {
      var rest, last := calls[..|calls| - 1], calls[|calls| - 1];
      ExtremeIsExtreme(op, init, rest);
      assert forall i :: 0 <= i < |rest| ==> rest[i] == calls[i];
      assert calls[|calls| - 1].val == last.val;
    }
  }

  // ---- What every interleaving keeps ----

  /** Each finished call returned the extreme of everything that finished before it. */
  ghost predicate Linear(op: Op, init: int, s: State) {
    && s.cell == Extreme(op, init, s.finished)
    && forall k :: 0 <= k < |s.finished| ==> s.finished[k].returned == Extreme(op, init, s.finished[..k])
  }

  /** The cell never moved back past what a call has loaded. */
  ghost predicate Monotone(op: Op, s: State) {
    forall id :: id in s.calls && s.calls[id].pc.Loaded? ==> !Beyond(op, s.calls[id].pc.curr, s.cell)
  }

  /** The compare-and-swap of this call is bound to fail. */
  predicate Stale(s: State, c: Call) {
    c.pc.Loaded? && c.pc.curr != s.cell
  }

  /** Every failed attempt of a call is paid for by a move of the cell since the call began. */
  ghost predicate Paid(s: State) {
    forall id :: id in s.calls ==>
      var c := s.calls[id];
      && c.since + c.fails + (if Stale(s, c) then 1 else 0) <= s.moves
      && s.moves - c.since <= |s.finished| - c.joined
  }

  function Distance(a: int, b: int): nat {
    if a < b then b - a else a - b
  }

  /** Each move brings the cell at least one further. */
  ghost predicate Moved(op: Op, init: int, s: State) {
    s.moves <= Distance(init, s.cell) && !Beyond(op, init, s.cell)
  }

  ghost predicate Inv(op: Op, init: int, s: State) {
    Linear(op, init, s) && Monotone(op, s) && Paid(s) && Moved(op, init, s)
  }

  lemma InitInv(op: Op, init: int)
    ensures Inv(op, init, Init(init))
  {
  }

  lemma StepKeepsLinear(op: Op, init: int, s: State, step: Step)
    requires Linear(op, init, s) && Enabled(s, step)
    ensures Linear(op, init, Apply(op, s, step))
  {
    var s' := Apply(op, s, step);
    if s'.finished != s.finished {
      assert s'.finished[..|s.finished|] == s.finished;
      forall k | 0 <= k < |s'.finished| ensures s'.finished[k].returned == Extreme(op, init, s'.finished[..k]) {
        assert s'.finished[..k] == s.finished[..k];
      }
    }
  }

  lemma StepKeepsMonotone(op: Op, s: State, step: Step)
    requires Monotone(op, s) && Enabled(s, step)
    ensures Monotone(op, Apply(op, s, step))
  {
  }

  lemma StepKeepsPaid(op: Op, s: State, step: Step)
    requires Paid(s) && Enabled(s, step)
    ensures Paid(Apply(op, s, step))
  {
  }

  lemma StepKeepsMoved(op: Op, init: int, s: State, step: Step)
    requires Moved(op, init, s) && Enabled(s, step)
    ensures Moved(op, init, Apply(op, s, step))
  {
  }

  lemma StepKeepsInv(op: Op, init: int, s: State, step: Step)
    requires Inv(op, init, s) && Enabled(s, step)
    ensures Inv(op, init, Apply(op, s, step))
  {
    hide Enabled, Apply, Linear, Monotone, Paid, Moved;
    StepKeepsLinear(op, init, s, step);
    StepKeepsMonotone(op, s, step);
    StepKeepsPaid(op, s, step);
    StepKeepsMoved(op, init, s, step);
  }

  lemma {:induction false} EveryRunKeepsInv(op: Op, init: int, s: State, steps: seq<Step>)
    requires Inv(op, init, s) && Legal(op, s, steps)
    ensures Inv(op, init, Run(op, s, steps))
    decreases |steps|
  {
    if steps != [] {
      StepKeepsInv(op, init, s, steps[0]);
      EveryRunKeepsInv(op, init, Apply(op, s, steps[0]), steps[1..]);
    }
  }

  // ---- The promises ----

  // ---- From the calls that were made ----

  predicate HasFinished(finished: seq<Done>, id: nat, val: int) {
    exists k :: 0 <= k < |finished| && finished[k].id == id && finished[k].val == val
  }

  /** Every call that was begun is in progress or has finished, once, with the argument it was made with. */
  ghost predicate Traced(s: State, steps: seq<Step>) {
    && (forall id, val :: Begin(id, val) in steps <==>
          (id in s.calls && s.calls[id].val == val) || HasFinished(s.finished, id, val))
    && (forall k :: 0 <= k < |s.finished| ==> s.finished[k].id !in s.calls)
    && (forall j, k :: 0 <= j < k < |s.finished| ==> s.finished[j].id != s.finished[k].id)
  }

  lemma FinishedGrows(finished: seq<Done>, d: Done, id: nat, val: int)
    ensures HasFinished(finished + [d], id, val) <==> HasFinished(finished, id, val) || (d.id == id && d.val == val)
  {
    var more := finished + [d];
    if HasFinished(finished, id, val) {
      var k :| 0 <= k < |finished| && finished[k].id == id && finished[k].val == val;
      assert more[k] == finished[k];
    }
    assert more[|finished|] == d;
  }

  lemma StepKeepsTraced(op: Op, s: State, steps: seq<Step>, step: Step)
    requires Traced(s, steps) && Enabled(s, step)
    ensures Traced(Apply(op, s, step), steps + [step])
  {
    var s', steps' := Apply(op, s, step), steps + [step];
    forall id, val
      ensures Begin(id, val) in steps' <==>
        (id in s'.calls && s'.calls[id].val == val) || HasFinished(s'.finished, id, val)
    {
      assert Begin(id, val) in steps' <==> Begin(id, val) in steps || step == Begin(id, val);
      if step.Cas? && s'.finished != s.finished {
        FinishedGrows(s.finished, s'.finished[|s.finished|], id, val);
      }
      if step.Begin? && step.id == id {
        assert !HasFinished(s.finished, id, val);
      }
    }
  }

  lemma {:induction false} EveryRunKeepsTraced(op: Op, s: State, before: seq<Step>, steps: seq<Step>)
    requires Traced(s, before) && Legal(op, s, steps)
    ensures Traced(Run(op, s, steps), before + steps)
    decreases |steps|
  {
    if steps == [] {
      assert before + [] == before;
    } else {
      StepKeepsTraced(op, s, before, steps[0]);
      EveryRunKeepsTraced(op, Apply(op, s, steps[0]), before + [steps[0]], steps[1..]);
      assert before + [steps[0]] + steps[1..] == before + steps;
    }
  }

  /** x is the least, or for a maximum the greatest, of the initial value and the first n finished arguments. */
  ghost predicate IsExtreme(op: Op, init: int, finished: seq<Done>, n: nat, x: int)
    requires n <= |finished|
  {
    && (x == init || exists i :: 0 <= i < n && finished[i].val == x)
    && (op == Min ==> x <= init && forall i :: 0 <= i < n ==> x <= finished[i].val)
    && (op == Max ==> x >= init && forall i :: 0 <= i < n ==> x >= finished[i].val)
  }

  lemma ExtremeOfPrefix(op: Op, init: int, finished: seq<Done>, n: nat)
    requires n <= |finished|
    ensures IsExtreme(op, init, finished, n, Extreme(op, init, finished[..n]))
  {
    var calls := finished[..n];
    ExtremeIsExtreme(op, init, calls);
    assert forall i :: 0 <= i < n ==> calls[i] == finished[i];
  }

  /**
   * The cell holds the extreme of its initial value and the arguments of all calls that have finished,
   * each call returned the extreme of those that finished before it, and these are the calls that the
   * run's threads made, with the arguments they made them with.
   */
  lemma CellIsExtreme(op: Op, init: int, steps: seq<Step>)
    requires Legal(op, Init(init), steps)
    ensures var s := Run(op, Init(init), steps);
      && IsExtreme(op, init, s.finished, |s.finished|, s.cell)
      && (forall k :: 0 <= k < |s.finished| ==> IsExtreme(op, init, s.finished, k, s.finished[k].returned))
      && Traced(s, steps)
  {
    InitInv(op, init);
    EveryRunKeepsInv(op, init, Init(init), steps);
    EveryRunKeepsTraced(op, Init(init), [], steps);
    assert [] + steps == steps;
    var s := Run(op, Init(init), steps);
    assert s.finished[..|s.finished|] == s.finished;
    ExtremeOfPrefix(op, init, s.finished, |s.finished|);
    forall k | 0 <= k < |s.finished| ensures IsExtreme(op, init, s.finished, k, s.finished[k].returned) {
      ExtremeOfPrefix(op, init, s.finished, k);
    }
  }

  /** Stated over the calls themselves: once every call made has finished, no argument lies beyond the cell. */
  lemma CellBoundsArguments(op: Op, init: int, steps: seq<Step>, id: nat, val: int)
    requires Legal(op, Init(init), steps) && Begin(id, val) in steps && id !in Run(op, Init(init), steps).calls
    ensures var s := Run(op, Init(init), steps);
      (op == Min ==> s.cell <= val && s.cell <= init) && (op == Max ==> s.cell >= val && s.cell >= init)
    ensures var s := Run(op, Init(init), steps);
      s.cell == init || exists i: nat, v: int :: Begin(i, v) in steps && i !in s.calls && v == s.cell
  {
    CellIsExtreme(op, init, steps);
    var s := Run(op, Init(init), steps);
    var k :| 0 <= k < |s.finished| && s.finished[k].id == id && s.finished[k].val == val;
    if s.cell != init {
      var i :| 0 <= i < |s.finished| && s.finished[i].val == s.cell;
      assert HasFinished(s.finished, s.finished[i].id, s.cell);
      assert Begin(s.finished[i].id, s.cell) in steps;
    }
  }

  /** A call alone on the cell: three steps, the old value returned, the extreme stored. */
  lemma CallAlone(op: Op, cell: int, val: int)
    ensures var steps := [Begin(0, val), Load(0), Cas(0)];
      && Legal(op, Init(cell), steps)
      && Run(op, Init(cell), steps).cell ==
           (if op == Min then if val < cell then val else cell else if cell < val then val else cell)
      && Run(op, Init(cell), steps).finished == [Done(0, val, cell)]
  {
    var s1 := Apply(op, Init(cell), Begin(0, val));
    var s2 := Apply(op, s1, Load(0));
    assert [Begin(0, val), Load(0), Cas(0)][1..] == [Load(0), Cas(0)];
    assert [Load(0), Cas(0)][1..] == [Cas(0)] && [Cas(0)][1..] == [];
    assert Run(op, s2, [Cas(0)]) == Apply(op, s2, Cas(0));
  }

  /** A compare-and-swap fails only after the cell moved strictly beyond what the call had loaded. */
  lemma FailureMeansProgress(op: Op, init: int, steps: seq<Step>, id: nat)
    requires Legal(op, Init(init), steps) && Enabled(Run(op, Init(init), steps), Cas(id))
    ensures var s := Run(op, Init(init), steps);
      var curr := s.calls[id].pc.curr;
      (id in Apply(op, s, Cas(id)).calls <==> s.cell != curr) && (s.cell != curr ==> Beyond(op, s.cell, curr))
  {
    InitInv(op, init);
    EveryRunKeepsInv(op, init, Init(init), steps);
  }

  /** Retries are bounded: by the calls that finished since this one began, and by how far the cell has moved. */
  lemma RetriesAreBounded(op: Op, init: int, steps: seq<Step>, id: nat)
    requires Legal(op, Init(init), steps) && id in Run(op, Init(init), steps).calls
    ensures var s := Run(op, Init(init), steps);
      s.calls[id].fails <= |s.finished| - s.calls[id].joined
    ensures var s := Run(op, Init(init), steps); s.calls[id].fails <= Distance(init, s.cell)
  {
    InitInv(op, init);
    EveryRunKeepsInv(op, init, Init(init), steps);
  }
}
