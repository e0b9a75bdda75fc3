/** The undo and redo stacks of an investigation board: snapshots, the cap, and how far undoing and
    redoing take one another back. */
module History {

  /** The current state and the two stacks, their tops last. */
  datatype History<S> = History(cur: S, undo: seq<S>, redo: seq<S>)

  const CAP := 40

  /** `snapshot` followed by a change of the board to `next`. */
  function Edit<S>(h: History<S>, next: S): History<S> {
    var pushed := h.undo + [h.cur];
    History(next, if |pushed| > CAP then pushed[1..] else pushed, [])
  }

  function Undo<S>(h: History<S>): History<S> {
    if |h.undo| == 0 then h
    else History(h.undo[|h.undo| - 1], h.undo[..|h.undo| - 1], h.redo + [h.cur])
  }

  function Redo<S>(h: History<S>): History<S> {
    if |h.redo| == 0 then h
    else History(h.redo[|h.redo| - 1], h.undo + [h.cur], h.redo[..|h.redo| - 1])
  }

  // --- Runs ---

  datatype Op<S> = DoEdit(next: S) | DoUndo | DoRedo

  function Apply<S>(h: History<S>, op: Op<S>): History<S> {
    match op
    case DoEdit(next) => Edit(h, next)
    case DoUndo => Undo(h)
    case DoRedo => Redo(h)
  }

  function Run<S>(h: History<S>, ops: seq<Op<S>>): History<S> {
    if |ops| == 0 then h else Apply(Run(h, ops[..|ops| - 1]), ops[|ops| - 1])
  }

  /** Together the stacks never hold more than 40 snapshots. */
  lemma {:induction false} StacksAreBounded<S>(h: History<S>, ops: seq<Op<S>>)
    requires |h.undo| + |h.redo| <= CAP
    ensures |Run(h, ops).undo| + |Run(h, ops).redo| <= CAP
  {
    if |ops| == 0 {
    } else {
      StacksAreBounded(h, ops[..|ops| - 1]);
    }
  }

  // --- The timeline ---

  function Reversed<S>(s: seq<S>): (r: seq<S>)
    ensures |r| == |s| && forall i :: 0 <= i < |s| ==> r[i] == s[|s| - 1 - i]
  {
    if |s| == 0 then [] else [s[|s| - 1]] + Reversed(s[..|s| - 1])
  }

  /** All states on hand, from the oldest that can be undone to the newest that can be redone. */
  function Timeline<S>(h: History<S>): seq<S> {
    h.undo + [h.cur] + Reversed(h.redo)
  }

  /** Undoing and redoing only move the position, within the ends of the timeline. */
  lemma Moves<S>(h: History<S>)
    ensures Timeline(Undo(h)) == Timeline(h) == Timeline(Redo(h))
    ensures |Undo(h).undo| == (if |h.undo| == 0 then 0 else |h.undo| - 1)
    ensures |Redo(h).undo| == (if |h.redo| == 0 then |h.undo| else |h.undo| + 1)
  {
  }

  /** The timeline and the position are all there is to a history. */
  lemma SameHistory<S>(g: History<S>, h: History<S>)
    requires Timeline(g) == Timeline(h) && |g.undo| == |h.undo|
    ensures g == h
  {
    var t, n := Timeline(g), |g.undo|;
    assert g.cur == t[n] == h.cur;
    forall i | 0 <= i < n ensures g.undo[i] == h.undo[i] {
      assert g.undo[i] == t[i] == h.undo[i];
    }
    assert |g.redo| == |t| - n - 1 == |h.redo|;
    forall i | 0 <= i < |g.redo| ensures g.redo[i] == h.redo[i] {
      assert g.redo[i] == t[|t| - 1 - i] == h.redo[i];
    }
  }

  /** The position after undoing and redoing in any order. */
  function Position<S>(at: nat, last: nat, ops: seq<Op<S>>): nat
    requires at <= last && forall i :: 0 <= i < |ops| ==> !ops[i].DoEdit?
    ensures Position(at, last, ops) <= last
  {
    if |ops| == 0 then at
    else
      var p := Position(at, last, ops[..|ops| - 1]);
      if ops[|ops| - 1].DoUndo? then (if p == 0 then 0 else p - 1) else (if p == last then last else p + 1)
  }

  lemma {:induction false} Walk<S>(h: History<S>, ops: seq<Op<S>>)
    requires forall i :: 0 <= i < |ops| ==> !ops[i].DoEdit?
    ensures Timeline(Run(h, ops)) == Timeline(h)
    ensures |Run(h, ops).undo| == Position(|h.undo|, |h.undo| + |h.redo|, ops)
  {
    hide Timeline, Undo, Redo;
    if |ops| == 0 {
    } else {
      var front := ops[..|ops| - 1];
      Walk(h, front);
      Moves(Run(h, front));
      TimelineLength(h);
      TimelineLength(Run(h, front));
    }
  }

  lemma TimelineLength<S>(h: History<S>)
    ensures |Timeline(h)| == |h.undo| + 1 + |h.redo|
  {
  }

  /** Undoing and redoing in any order give back the history exactly when they end where they began. */
  lemma BackWhereItBegan<S>(h: History<S>, ops: seq<Op<S>>)
    requires forall i :: 0 <= i < |ops| ==> !ops[i].DoEdit?
    ensures Run(h, ops) == h <==> Position(|h.undo|, |h.undo| + |h.redo|, ops) == |h.undo|
  {
    hide Timeline, Run;
    Walk(h, ops);
    if |Run(h, ops).undo| == |h.undo| { SameHistory(Run(h, ops), h); }
  }

  function Times<S>(op: Op<S>, k: nat): (s: seq<Op<S>>)
    ensures |s| == k && forall i :: 0 <= i < k ==> s[i] == op
  {
    seq(k, _ => op)
  }

  /** The position k undos or k redos away. */
  function Moved<S>(op: Op<S>, at: nat, last: nat, k: nat): nat
    requires at <= last
  {
    if op.DoUndo? then (if at < k then 0 else at - k) else (if at + k > last then last else at + k)
  }

  lemma PositionNext<S>(at: nat, last: nat, ops: seq<Op<S>>, op: Op<S>)
    requires at <= last && !op.DoEdit? && forall i :: 0 <= i < |ops| ==> !ops[i].DoEdit?
    ensures Position(at, last, ops + [op]) == Moved(op, Position(at, last, ops), last, 1)
  {
    assert (ops + [op])[..|ops|] == ops;
  }

  lemma TimesNext<S>(ops: seq<Op<S>>, op: Op<S>, k: nat)
    ensures ops + Times(op, 0) == ops
    ensures k > 0 ==> ops + Times(op, k) == (ops + Times(op, k - 1)) + [op]
  {
  }

  lemma {:induction false} PositionOfMany<S>(at: nat, last: nat, ops: seq<Op<S>>, op: Op<S>, k: nat)
    requires at <= last && !op.DoEdit? && forall i :: 0 <= i < |ops| ==> !ops[i].DoEdit?
    ensures Position(at, last, ops + Times(op, k)) == Moved(op, Position(at, last, ops), last, k)
  {
    hide Position;
    TimesNext(ops, op, k);
    if k == 0 {
    } else {
      PositionOfMany(at, last, ops, op, k - 1);
      PositionNext(at, last, ops + Times(op, k - 1), op);
    }
  }

  lemma PositionOfTwo<S>(at: nat, last: nat, op: Op<S>, op': Op<S>, k: nat)
    requires at <= last && !op.DoEdit? && !op'.DoEdit?
    ensures Position(at, last, Times(op, k)) == Moved(op, at, last, k) <= last
    ensures Position(at, last, Times(op, k) + Times(op', k)) == Moved(op', Moved(op, at, last, k), last, k)
  {
    PositionOfMany<S>(at, last, [], op, k);
    assert [] + Times(op, k) == Times(op, k);
    PositionOfMany(at, last, Times(op, k), op', k);
  }

  /** k undos and then k redos restore the board and both stacks exactly when there were k snapshots
      to undo, or nothing had been undone before. */
  lemma UndoRedo<S>(h: History<S>, k: nat)
    ensures Run(h, Times(DoUndo, k) + Times(DoRedo, k)) == h <==> k <= |h.undo| || |h.redo| == 0
  {
    hide Run, Position;
    PositionOfTwo<S>(|h.undo|, |h.undo| + |h.redo|, DoUndo, DoRedo, k);
    BackWhereItBegan(h, Times(DoUndo, k) + Times(DoRedo, k));
  }

  /** k redos and then k undos, likewise. */
  lemma RedoUndo<S>(h: History<S>, k: nat)
    ensures Run(h, Times(DoRedo, k) + Times(DoUndo, k)) == h <==> k <= |h.redo| || |h.undo| == 0
  {
    hide Run, Position;
    PositionOfTwo<S>(|h.undo|, |h.undo| + |h.redo|, DoRedo, DoUndo, k);
    BackWhereItBegan(h, Times(DoRedo, k) + Times(DoUndo, k));
  }

  // --- Undoing edits ---

  function FromEnd<S>(s: seq<S>, i: nat): S
    requires i < |s|
  {
    s[|s| - 1 - i]
  }

  ghost predicate IsEndOf<S>(e: seq<S>, s: seq<S>) {
    |e| <= |s| && forall i :: 0 <= i < |e| ==> FromEnd(e, i) == FromEnd(s, i)
  }

  /** The states up to now. */
  function Past<S>(h: History<S>): seq<S> {
    h.undo + [h.cur]
  }

  lemma EditIs<S>(h: History<S>, next: S, s: seq<S>)
    requires |h.undo| <= CAP && IsEndOf(Past(h), s)
    ensures var e := Edit(h, next);
            |e.undo| == (if |h.undo| == CAP then CAP else |h.undo| + 1) && IsEndOf(Past(e), s + [next])
  {
    var e := Edit(h, next);
    forall i | 0 <= i < |Past(e)| ensures FromEnd(Past(e), i) == FromEnd(s + [next], i) {
      if i > 0 { assert FromEnd(Past(e), i) == FromEnd(Past(h), i - 1) == FromEnd(s, i - 1); }
    }
  }

  /** After edits the undo stack holds the states before the current one, up to 40 of them. */
  lemma {:induction false} Edits<S>(h: History<S>, states: seq<S>)
    requires |h.undo| <= CAP
    ensures var r := Run(h, EditsTo(states));
            && |r.undo| == (if |h.undo| + |states| > CAP then CAP else |h.undo| + |states|)
            && IsEndOf(Past(r), Past(h) + states)
  {
    hide IsEndOf, Past, Edit, EditsTo;
    if |states| > 0 {
      var front, last := states[..|states| - 1], states[|states| - 1];
      Edits(h, front);
      EditsToNext(states);
      EditIs(Run(h, EditsTo(front)), last, Past(h) + front);
      assert (Past(h) + front) + [last] == Past(h) + states;
    } else {
      NoEdits(h, states);
    }
  }

  lemma EditsToNext<S>(states: seq<S>)
    requires |states| > 0
    ensures var ops := EditsTo(states);
            && |ops| == |states| && ops[|ops| - 1] == DoEdit(states[|states| - 1])
            && ops[..|ops| - 1] == EditsTo(states[..|states| - 1])
  {
  }

  lemma NoEdits<S>(h: History<S>, states: seq<S>)
    requires |states| == 0
    ensures EditsTo(states) == [] && IsEndOf(Past(h), Past(h) + states)
  {
    assert Past(h) + states == Past(h);
  }

  function EditsTo<S>(states: seq<S>): (ops: seq<Op<S>>)
    ensures |ops| == |states| && forall i :: 0 <= i < |ops| ==> ops[i] == DoEdit(states[i])
  {
    seq(|states|, i requires 0 <= i < |states| => DoEdit(states[i]))
  }

  lemma OnTimeline<S>(h: History<S>)
    ensures |Timeline(h)| > |h.undo| && |Past(h)| == |h.undo| + 1
    ensures Timeline(h)[|h.undo|] == h.cur
    ensures forall k :: 0 <= k <= |h.undo| ==> Timeline(h)[|h.undo| - k] == FromEnd(Past(h), k)
  {
  }

  /** k undos lead to the k-th state before the current one. */
  lemma Undone<S>(h: History<S>, k: nat)
    requires k <= |h.undo|
    ensures |Past(h)| > k && Run(h, Times(DoUndo, k)).cur == FromEnd(Past(h), k)
  {
    hide Run, Timeline, Position, Past, FromEnd;
    var u := Run(h, Times(DoUndo, k));
    Walk(h, Times(DoUndo, k));
    PositionOfTwo<S>(|h.undo|, |h.undo| + |h.redo|, DoUndo, DoUndo, k);
    OnTimeline(u);
    OnTimeline(h);
  }

  /** k undos after any edits lead to the state before the last k of them, when k is 40 at most. */
  lemma EditsUndone<S>(h: History<S>, states: seq<S>, k: nat)
    requires |h.undo| <= CAP && k <= |states| && k <= CAP
    ensures Run(Run(h, EditsTo(states)), Times(DoUndo, k)).cur == ([h.cur] + states)[|states| - k]
  {
    hide Run;
    Edits(h, states);
    var r := Run(h, EditsTo(states));
    Undone(r, k);
    assert FromEnd(Past(r), k) == FromEnd(Past(h) + states, k);
  }
}
