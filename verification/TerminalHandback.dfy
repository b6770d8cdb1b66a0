/** The terminal hand-back protocol (apiclient/attach_terminal.go) as a state machine over its atomic steps: a
    sequence of attaches, each with its own lock, a shared owner pointer, and any interleaving of the attach itself,
    its signal watcher and outside callers of RestoreAttachedTerminal. */
module TerminalHandback {
  import opened Wrappers

  /** Who holds an attach's lock, and how far it has got. */
  datatype Lock =
    | Free
    | Beginning            // published, makeRaw not called yet
    | TookRaw(was: bool)   // makeRaw succeeded, the mode it found not recorded yet
    | Restoring            // restored is set, the termios not put back yet
    | Retaking             // checked that a retake is due, makeRaw not called yet
    | Retook               // makeRaw succeeded, restored not cleared yet

  /** One terminalHandback. `saved` is oldState, the mode makeRaw found: true for raw, None for nil. `retired` says the
      begin failed or release passed its locked part, so only the owner pointer is left to give up. */
  datatype Attach = Attach(lock: Lock, saved: Option<bool>, restored: bool, finished: bool, retired: bool)

  /** `raw` is the terminal mode, `owner` is activeHandback. */
  datatype State = State(raw: bool, owner: Option<nat>, attaches: seq<Attach>)

  const INITIAL := State(false, None, [])

  datatype Step =
    | Publish                 // beginRawTerminalHandback: lock a new hand-back and publish it
    | MakeRawOk(h: nat)
    | MakeRawFails(h: nat)    // nothing borrowed: finished and restored
    | RecordState(h: nat)     // keep the old state, unlock
    | RestoreBegin(h: nat)    // restore() by anyone who ever loaded h; a no-op once restored
    | RestoreEnd(h: nat)      // write the neutral modes, put the termios back, unlock
    | RetakeBegin(h: nat)     // retake() by the signal watcher; a no-op when not due
    | RetakeOk(h: nat)
    | RetakeFails(h: nat)
    | RetakeEnd(h: nat)
    | ReleaseBegin(h: nat)    // release(): finished, then the same restore under the same lock
    | Unpublish(h: nat)       // compare-and-swap of the owner pointer, after release or a failed begin

  function Put(s: State, h: nat, a: Attach): State
    requires h < |s.attaches|
  {
    s.(attaches := s.attaches[h := a])
  }

  /** Every attach so far has handed the terminal back for good. */
  predicate AllDone(s: State) {
    forall h :: 0 <= h < |s.attaches| ==> s.attaches[h].retired && s.attaches[h].lock.Free?
  }

  const PUBLISHED := Attach(Beginning, None, false, false, false)

  /** Who may move next. A begin may come at any time, also while another attach has the terminal. */
  predicate Enabled(s: State, step: Step) {
    step.Publish? ||
    (&& step.h < |s.attaches|
     && var a := s.attaches[step.h];
        match step
        case Publish => true
        case MakeRawOk(_) => a.lock.Beginning?
        case MakeRawFails(_) => a.lock.Beginning?
        case RecordState(_) => a.lock.TookRaw?
        case RestoreBegin(_) => a.lock.Free?
        case RestoreEnd(_) => a.lock.Restoring?
        case RetakeBegin(_) => a.lock.Free?
        case RetakeOk(_) => a.lock.Retaking?
        case RetakeFails(_) => a.lock.Retaking?
        case RetakeEnd(_) => a.lock.Retook?
        case ReleaseBegin(_) => a.lock.Free?
        case Unpublish(_) => a.retired && a.lock.Free?)
  }

  function Next(s: State, step: Step): State
    requires Enabled(s, step)
  {
    match step
    case Publish => State(s.raw, Some(|s.attaches|), s.attaches + [PUBLISHED])
    case MakeRawOk(h) => Put(s, h, s.attaches[h].(lock := TookRaw(s.raw))).(raw := true)
    case MakeRawFails(h) =>
      Put(s, h, s.attaches[h].(lock := Free, finished := true, restored := true, retired := true))
    case RecordState(h) => Put(s, h, s.attaches[h].(lock := Free, saved := Some(s.attaches[h].lock.was)))
    case RestoreBegin(h) =>
      if s.attaches[h].restored then s else Put(s, h, s.attaches[h].(restored := true, lock := Restoring))
    case RestoreEnd(h) =>
      var a := s.attaches[h];
      Put(s, h, a.(lock := Free, retired := a.finished)).(raw := PutBack(a, s.raw))
    case RetakeBegin(h) =>
      var a := s.attaches[h];
      if a.finished || !a.restored || a.saved.None? then s else Put(s, h, a.(lock := Retaking))
    case RetakeOk(h) => Put(s, h, s.attaches[h].(lock := Retook)).(raw := true)
    case RetakeFails(h) => Put(s, h, s.attaches[h].(lock := Free))
    case RetakeEnd(h) => Put(s, h, s.attaches[h].(lock := Free, restored := false))
    case ReleaseBegin(h) =>
      var a := s.attaches[h];
      if a.restored then Put(s, h, a.(finished := true, retired := true))
      else Put(s, h, a.(finished := true, restored := true, lock := Restoring))
    case Unpublish(h) => if s.owner == Some(h) then s.(owner := None) else s
  }

  /** The mode after an attach puts its saved termios back. */
  function PutBack(a: Attach, raw: bool): bool {
    if a.saved.Some? then a.saved.value else raw
  }

  // ----- the invariant

  function Last(s: State): nat
    requires |s.attaches| > 0
  {
    |s.attaches| - 1
  }

  /** Every attach but the last has given the terminal up and can no longer act on it. */
  predicate Over(a: Attach) {
    a.retired && a.finished && a.restored && a.lock.Free?
  }

  /** What the flags of the last attach say about the terminal, for each holder of its lock. */
  predicate Agrees(a: Attach, raw: bool) {
    && (a.retired ==> Over(a)) && (a.lock.Free? && a.finished ==> a.retired) && a.saved != Some(true)
    && match a.lock
       case Free => (a.saved.Some? || a.retired) && raw == !a.restored
       case Beginning => a.saved.None? && !a.restored && !a.finished && !raw
       case TookRaw(was) => a.saved.None? && !a.restored && !a.finished && raw && !was
       case Restoring => a.saved.Some? && a.restored && raw
       case Retaking => a.saved.Some? && a.restored && !a.finished && !raw
       case Retook => a.saved.Some? && a.restored && !a.finished && raw
  }

  predicate Inv(s: State) {
    if |s.attaches| == 0 then !s.raw && s.owner.None?
    else
      && (forall h :: 0 <= h < Last(s) ==> Over(s.attaches[h]))
      && Agrees(s.attaches[Last(s)], s.raw)
      && (!s.attaches[Last(s)].retired ==> s.owner == Some(Last(s)))
      && (s.owner.Some? ==> s.owner.value == Last(s))
  }

  /** An attach begins only once the earlier ones are done. */
  predicate InTurn(s: State, step: Step) {
    step.Publish? ==> AllDone(s)
  }

  /** Every step of every actor keeps the invariant. */
  lemma StepKeepsInv(s: State, step: Step)
    requires Inv(s) && Enabled(s, step) && InTurn(s, step)
    ensures Inv(Next(s, step))
  {
    if !step.Publish? && step.h < Last(s) {
      assert Over(s.attaches[step.h]);
    }
  }

  // ----- whole runs

  predicate IsRun(steps: seq<Step>, s: State)
    decreases |steps|
  {
    |steps| == 0 || (Enabled(s, steps[0]) && IsRun(steps[1..], Next(s, steps[0])))
  }

  function After(steps: seq<Step>, s: State): State
    requires IsRun(steps, s)
    decreases |steps|
  {
    if |steps| == 0 then s else After(steps[1..], Next(s, steps[0]))
  }

  /** A run of successive attaches. */
  predicate Successive(steps: seq<Step>, s: State)
    requires IsRun(steps, s)
    decreases |steps|
  {
    |steps| == 0 || (InTurn(s, steps[0]) && Successive(steps[1..], Next(s, steps[0])))
  }

  lemma {:induction false} RunKeepsInv(steps: seq<Step>, s: State)
    requires Inv(s) && IsRun(steps, s) && Successive(steps, s)
    ensures Inv(After(steps, s))
    decreases |steps|
  {
    if |steps| > 0 {
      StepKeepsInv(s, steps[0]);
      RunKeepsInv(steps[1..], Next(s, steps[0]));
    }
  }

  /** A raw terminal has a published owner, which is the attach that made it raw; whenever that attach's lock is free
      its restored flag tells the terminal's mode; and once every attach is released the terminal is cooked. */
  predicate Safe(s: State) {
    && (s.raw ==> |s.attaches| > 0 && s.owner == Some(Last(s)))
    && (|s.attaches| > 0 && s.attaches[Last(s)].saved.Some? && s.attaches[Last(s)].lock.Free? ==>
          (s.attaches[Last(s)].restored <==> !s.raw))
    && (AllDone(s) ==> !s.raw)
  }

  /** Safety over every interleaving of any number of successive attaches. */
  lemma RunsAreSafe(steps: seq<Step>)
    requires IsRun(steps, INITIAL) && Successive(steps, INITIAL)
    ensures Safe(After(steps, INITIAL))
  {
    RunKeepsInv(steps, INITIAL);
  }

  /** In any reachable state, a step of an attach that has been released changes neither the terminal nor, unless that
      attach is itself the owner, the owner: a late release cannot unpublish a newer attach. */
  lemma ReleasedAttachIsInert(steps: seq<Step>, step: Step)
    requires IsRun(steps, INITIAL) && Successive(steps, INITIAL)
    requires Enabled(After(steps, INITIAL), step) && !step.Publish?
    requires After(steps, INITIAL).attaches[step.h].retired
    ensures var s := After(steps, INITIAL);
            && Next(s, step).raw == s.raw && Next(s, step).attaches == s.attaches
            && (s.owner != Some(step.h) ==> Next(s, step).owner == s.owner)
            && (s.owner == Some(step.h) ==> !s.raw)
  {
    RunKeepsInv(steps, INITIAL);
    var s := After(steps, INITIAL);
    assert Over(s.attaches[step.h]);
    assert s.attaches[step.h := s.attaches[step.h]] == s.attaches;
  }

  // ----- attaches that overlap

  /** Whatever can happen after a begin, with every later attach in its turn, is safe. */
  ghost predicate BeginIsSafe(s: State) {
    forall steps ::
      IsRun(steps, Next(s, Publish)) && Successive(steps, Next(s, Publish)) ==> Safe(After(steps, Next(s, Publish)))
  }

  /** Beginning an attach is safe exactly when every earlier one is done: the protocol protects successive attaches, and
      no overlapping ones. */
  lemma BeginSafeIff(s: State)
    requires Inv(s)
    ensures BeginIsSafe(s) <==> AllDone(s)
  {
    if AllDone(s) {
      StepKeepsInv(s, Publish);
      forall steps | IsRun(steps, Next(s, Publish)) && Successive(steps, Next(s, Publish))
        ensures Safe(After(steps, Next(s, Publish)))
      {
        RunKeepsInv(steps, Next(s, Publish));
      }
    } else {
      var steps := OverlapLosesOwner(s);
    }
  }

  /** If the second begin fails it unpublishes itself, and the first attach holds, or takes back, a raw terminal that
      nobody owns. */
  lemma OverlapLosesOwner(s: State) returns (steps: seq<Step>)
    requires Inv(s) && !AllDone(s)
    ensures IsRun(steps, Next(s, Publish)) && Successive(steps, Next(s, Publish))
    ensures var t := After(steps, Next(s, Publish)); t.raw && t.owner.None?
  {
    var h, n := Last(s), |s.attaches|;
    var begun := Next(s, Publish);
    var failed := Next(begun, MakeRawFails(n));
    var t := Next(failed, Unpublish(n));
    assert t.attaches[h] == s.attaches[h] && t.raw == s.raw && t.owner.None?;
    steps := GoRaw(t, h);
    FirstStep(failed, Unpublish(n), steps);
    FirstStep(begun, MakeRawFails(n), [Unpublish(n)] + steps);
    steps := [MakeRawFails(n)] + ([Unpublish(n)] + steps);
  }

  /** An attach that is not done has the terminal raw or can get it there by itself. */
  lemma GoRaw(t: State, h: nat) returns (steps: seq<Step>)
    requires h < |t.attaches| && Agrees(t.attaches[h], t.raw) && !t.attaches[h].retired
    ensures IsRun(steps, t) && Successive(steps, t) && After(steps, t).raw && After(steps, t).owner == t.owner
  {
    match t.attaches[h].lock
    case Beginning =>
      FirstStep(t, MakeRawOk(h), []);
      steps := [MakeRawOk(h)] + [];
    case Retaking =>
      FirstStep(t, RetakeOk(h), []);
      steps := [RetakeOk(h)] + [];
    case Free =>
      steps := [];
      if !t.raw {
        FirstStep(Next(t, RetakeBegin(h)), RetakeOk(h), []);
        FirstStep(t, RetakeBegin(h), [RetakeOk(h)] + []);
        steps := [RetakeBegin(h)] + ([RetakeOk(h)] + []);
      }
    case _ =>
      steps := [];
  }

  /** Two overlapping attaches that both begin and both release, with nothing failing, leave the terminal raw for good:
      the second one found it raw and puts that back. */
  lemma OverlapLeavesRaw() returns (steps: seq<Step>)
    ensures IsRun(steps, INITIAL) && AllDone(After(steps, INITIAL)) && After(steps, INITIAL).raw
  {
    var first := Attach(Free, Some(false), false, false, false);
    var second := Attach(Free, Some(true), false, false, false);
    var s1, s2 := State(true, Some(0), [first]), State(true, Some(1), [first, second]);
    var released := Attach(Free, Some(false), true, true, true);
    var s3 := State(false, Some(1), [released, second]);
    var begin1 := BeginRun(INITIAL);
    var begin2 := BeginRun(s1);
    assert [] + [first] == [first] && [first] + [second] == [first, second];
    var end1 := ReleaseRun(s2, 0);
    var end2 := ReleaseRun(s3, 1);
    assert s2.attaches[0 := released] == s3.attaches;
    RunAppend(begin1, begin2, INITIAL);
    RunAppend(begin1 + begin2, end1, INITIAL);
    RunAppend(begin1 + begin2 + end1, end2, INITIAL);
    steps := begin1 + begin2 + end1 + end2;
  }

  /** An undisturbed begin. */
  lemma BeginRun(s: State) returns (steps: seq<Step>)
    ensures IsRun(steps, s)
    ensures After(steps, s)
         == State(true, Some(|s.attaches|), s.attaches + [Attach(Free, Some(s.raw), false, false, false)])
  {
    var h := |s.attaches|;
    var t := Next(s, Publish);
    RunOfThree(s, Publish, MakeRawOk(h), RecordState(h));
    steps := [Publish, MakeRawOk(h), RecordState(h)];
    var end := Next(Next(t, MakeRawOk(h)), RecordState(h));
    assert end.attaches == s.attaches + [Attach(Free, Some(s.raw), false, false, false)];
  }

  /** An undisturbed release, up to its unpublish. */
  lemma ReleaseRun(s: State, h: nat) returns (steps: seq<Step>)
    requires h < |s.attaches| && s.attaches[h].lock.Free? && !s.attaches[h].restored
    ensures IsRun(steps, s)
    ensures var a := s.attaches[h];
            After(steps, s) == State(PutBack(a, s.raw), s.owner,
                                     s.attaches[h := a.(finished := true, restored := true, retired := true)])
  {
    TwoSteps(s, ReleaseBegin(h), RestoreEnd(h));
    steps := [ReleaseBegin(h), RestoreEnd(h)];
    var a := s.attaches[h];
    assert Next(Next(s, ReleaseBegin(h)), RestoreEnd(h)).attaches
        == s.attaches[h := a.(finished := true, restored := true, retired := true)];
  }

  // ----- the order of one hand-back

  /** Restored exactly once: the termios is put back only while it is raw. */
  lemma RestoreEndsRaw(steps: seq<Step>, h: nat)
    requires IsRun(steps, INITIAL) && Successive(steps, INITIAL) && Enabled(After(steps, INITIAL), RestoreEnd(h))
    ensures After(steps, INITIAL).raw && !Next(After(steps, INITIAL), RestoreEnd(h)).raw
  {
    RunKeepsInv(steps, INITIAL);
  }

  // ----- RestoreAttachedTerminal always succeeds

  /** How many steps the holder of a lock still needs to free it. */
  function Pending(l: Lock): nat {
    match l
    case Free => 0
    case Beginning => 2
    case TookRaw(_) => 1
    case Restoring => 1
    case Retaking => 2
    case Retook => 1
  }

  /** A step the holder itself can take, always enabled and always nearer to freeing the lock. */
  function HolderStep(l: Lock, h: nat): Step
    requires !l.Free?
  {
    match l
    case Beginning => MakeRawOk(h)
    case TookRaw(_) => RecordState(h)
    case Restoring => RestoreEnd(h)
    case Retaking => RetakeOk(h)
    case Retook => RetakeEnd(h)
  }

  /** From any reachable state with a raw terminal, the published owner's restore goes through: at most two steps of the
      lock's holder free it, and then the restore leaves the terminal cooked. */
  lemma OwnerCanRestore(s: State) returns (steps: seq<Step>)
    requires Inv(s) && s.raw
    ensures s.owner.Some? && IsRun(steps, s) && |steps| <= 4 && !After(steps, s).raw
    ensures forall i :: 0 <= i < |steps| ==> !steps[i].Publish? && steps[i].h == s.owner.value
  {
    var h := Last(s);
    steps := Drain(s, h);
    var t := After(steps, s);
    if t.raw {
      TwoSteps(t, RestoreBegin(h), RestoreEnd(h));
      RunAppend(steps, [RestoreBegin(h), RestoreEnd(h)], s);
      steps := steps + [RestoreBegin(h), RestoreEnd(h)];
    }
  }

  lemma TwoSteps(s: State, a: Step, b: Step)
    requires Enabled(s, a) && Enabled(Next(s, a), b)
    ensures IsRun([a, b], s) && After([a, b], s) == Next(Next(s, a), b)
  {
    hide Next, Enabled;
    FirstStep(Next(s, a), b, []);
    FirstStep(s, a, [b]);
    assert [a] + [b] == [a, b] && [b] + [] == [b];
  }

  lemma FirstStep(s: State, a: Step, rest: seq<Step>)
    requires Enabled(s, a) && IsRun(rest, Next(s, a))
    ensures IsRun([a] + rest, s) && After([a] + rest, s) == After(rest, Next(s, a))
    ensures InTurn(s, a) && Successive(rest, Next(s, a)) ==> Successive([a] + rest, s)
  {
    hide Next, Enabled, AllDone;
    assert ([a] + rest)[1..] == rest;
  }

  lemma {:induction false} RunAppend(a: seq<Step>, b: seq<Step>, s: State)
    requires IsRun(a, s) && IsRun(b, After(a, s))
    ensures IsRun(a + b, s) && After(a + b, s) == After(b, After(a, s))
    decreases |a|
  {
    if |a| == 0 {
      assert a + b == b;
    } else {
      hide Next, Enabled;
      assert (a + b)[1..] == a[1..] + b;
      RunAppend(a[1..], b, Next(s, a[0]));
    }
  }

  /** Let the holder of the last attach's lock finish. */
  lemma {:induction false} Drain(s: State, h: nat) returns (steps: seq<Step>)
    requires Inv(s) && |s.attaches| > 0 && h == Last(s)
    ensures IsRun(steps, s) && |steps| == Pending(s.attaches[h].lock)
    ensures forall i :: 0 <= i < |steps| ==> !steps[i].Publish? && steps[i].h == h
    ensures var t := After(steps, s); Inv(t) && |t.attaches| == |s.attaches| && t.attaches[h].lock.Free?
    decreases Pending(s.attaches[h].lock)
  {
    var l := s.attaches[h].lock;
    if l.Free? {
      steps := [];
    } else {
      var step := HolderStep(l, h);
      var t := Next(s, step);
      StepKeepsInv(s, step);
      var rest := Drain(t, h);
      steps := [step] + rest;
      assert steps[1..] == rest;
    }
  }

  // ----- the code, one call at a time

  /** The fields the calls update. A call that runs without interference is a run of the steps above. */
  class Terminal {
    var raw: bool
    var owner: Option<nat>
    var attaches: seq<Attach>

    ghost function View(): State
      reads this
    {
      State(raw, owner, attaches)
    }

    constructor ()
      ensures View() == INITIAL
    {
      raw, owner, attaches := false, None, [];
    }

    /** beginRawTerminalHandback: the new hand-back is published before the terminal is borrowed. */
    method BeginRaw(makeRawOk: bool) returns (h: nat)
      modifies this
      ensures h == |old(attaches)|
      ensures var steps := if makeRawOk then [Publish, MakeRawOk(h), RecordState(h)]
                           else [Publish, MakeRawFails(h), Unpublish(h)];
              IsRun(steps, old(View())) && View() == After(steps, old(View()))
      ensures old(Inv(View()) && AllDone(View())) ==> Inv(View())
    {
      ghost var before := View();
      h := |attaches|;
      attaches := attaches + [PUBLISHED];
      owner := Some(h);
      if !makeRawOk {
        attaches := attaches[h := Attach(Free, None, true, true, true)];
        if owner == Some(h) { owner := None; }
        RunOfThree(before, Publish, MakeRawFails(h), Unpublish(h));
        InvOfThree(before, Publish, MakeRawFails(h), Unpublish(h));
        return;
      }
      var oldState := raw;
      raw := true;
      attaches := attaches[h := Attach(Free, Some(oldState), false, false, false)];
      RunOfThree(before, Publish, MakeRawOk(h), RecordState(h));
      InvOfThree(before, Publish, MakeRawOk(h), RecordState(h));
      assert attaches == Next(Next(Next(before, Publish), MakeRawOk(h)), RecordState(h)).attaches;
    }

    /** restoreLocked: at most once, however many callers race for it. */
    method Restore(h: nat)
      requires h < |attaches| && attaches[h].lock.Free?
      modifies this
      ensures owner == old(owner) && |attaches| == |old(attaches)|
      ensures old(attaches[h].restored) ==> View() == old(View())
      ensures !old(attaches[h].restored) ==>
                && IsRun([RestoreBegin(h), RestoreEnd(h)], old(View()))
                && View() == After([RestoreBegin(h), RestoreEnd(h)], old(View()))
      ensures old(Inv(View())) ==> Inv(View()) && (h + 1 == |attaches| ==> !raw)
    {
      hide Inv;
      LastCooked(View(), h);
      if attaches[h].restored { return; }
      ghost var before := View();
      TwoSteps(before, RestoreBegin(h), RestoreEnd(h));
      InvOfTwo(before, RestoreBegin(h), RestoreEnd(h));
      if attaches[h].saved.Some? { raw := attaches[h].saved.value; }
      attaches := attaches[h := attaches[h].(restored := true, retired := attaches[h].finished)];
      assert attaches == Next(Next(before, RestoreBegin(h)), RestoreEnd(h)).attaches;
      LastCooked(View(), h);
    }

    /** retake: raw again after a premature hand-back, never once the attach is finished. */
    method Retake(h: nat, makeRawOk: bool)
      requires h < |attaches| && attaches[h].lock.Free?
      modifies this
      ensures var due := old(!attaches[h].finished && attaches[h].restored && attaches[h].saved.Some?);
              if due && makeRawOk then && IsRun([RetakeBegin(h), RetakeOk(h), RetakeEnd(h)], old(View()))
                                       && View() == After([RetakeBegin(h), RetakeOk(h), RetakeEnd(h)], old(View()))
              else View() == old(View())
      ensures old(Inv(View())) ==> Inv(View())
    {
      if attaches[h].finished || !attaches[h].restored || attaches[h].saved.None? { return; }
      if !makeRawOk { return; }
      ghost var before := View();
      RunOfThree(before, RetakeBegin(h), RetakeOk(h), RetakeEnd(h));
      InvOfThree(before, RetakeBegin(h), RetakeOk(h), RetakeEnd(h));
      raw := true;
      attaches := attaches[h := attaches[h].(restored := false)];
      assert attaches == Next(Next(Next(before, RetakeBegin(h)), RetakeOk(h)), RetakeEnd(h)).attaches;
    }

    /** release: the final hand-back, and only then the owner pointer, if it is still this attach's. */
    method Release(h: nat)
      requires h < |attaches| && attaches[h].lock.Free?
      modifies this
      ensures |attaches| == |old(attaches)| && attaches[h].retired && owner != Some(h)
      ensures var steps := if old(attaches[h].restored) then [ReleaseBegin(h), Unpublish(h)]
                           else [ReleaseBegin(h), RestoreEnd(h), Unpublish(h)];
              IsRun(steps, old(View())) && View() == After(steps, old(View()))
      ensures old(Inv(View())) ==> Inv(View()) && (h + 1 == |attaches| ==> !raw)
    {
      hide Inv;
      ghost var before := View();
      if attaches[h].restored {
        TwoSteps(before, ReleaseBegin(h), Unpublish(h));
        InvOfTwo(before, ReleaseBegin(h), Unpublish(h));
        attaches := attaches[h := attaches[h].(finished := true, retired := true)];
      } else {
        RunOfThree(before, ReleaseBegin(h), RestoreEnd(h), Unpublish(h));
        InvOfThree(before, ReleaseBegin(h), RestoreEnd(h), Unpublish(h));
        if attaches[h].saved.Some? { raw := attaches[h].saved.value; }
        attaches := attaches[h := attaches[h].(finished := true, restored := true, retired := true)];
        assert attaches == Next(Next(Next(before, ReleaseBegin(h)), RestoreEnd(h)), Unpublish(h)).attaches;
      }
      if owner == Some(h) { owner := None; }
      LastCooked(View(), h);
    }

    /** RestoreAttachedTerminal: through the in-flight attach's own restore. With no lock held and the attaches in turn,
        the terminal is cooked afterwards whatever it was before. */
    method RestoreAttached()
      requires owner.Some? ==> owner.value < |attaches|
      requires forall h :: 0 <= h < |attaches| ==> attaches[h].lock.Free?
      modifies this
      ensures owner == old(owner)
      ensures old(owner.None? || attaches[owner.value].restored) ==> View() == old(View())
      ensures old(Inv(View())) ==> Inv(View()) && !raw && (!old(raw) ==> View() == old(View()))
    {
      if owner.Some? {
        Restore(owner.value);
      }
    }
  }

  /** The last attach, restored and with its lock free, has left the terminal cooked. */
  lemma LastCooked(s: State, h: nat)
    requires h < |s.attaches| && s.attaches[h].lock.Free?
    ensures Inv(s) && h + 1 == |s.attaches| && s.attaches[h].restored ==> !s.raw
  {
  }

  lemma InvOfTwo(s: State, a: Step, b: Step)
    requires Enabled(s, a) && Enabled(Next(s, a), b) && !b.Publish?
    ensures Inv(s) && InTurn(s, a) ==> Inv(Next(Next(s, a), b))
  {
    hide Inv, Next, Enabled;
    if Inv(s) && InTurn(s, a) {
      StepKeepsInv(s, a);
      StepKeepsInv(Next(s, a), b);
    }
  }

  lemma InvOfThree(s: State, a: Step, b: Step, c: Step)
    requires Enabled(s, a) && Enabled(Next(s, a), b) && Enabled(Next(Next(s, a), b), c) && !b.Publish? && !c.Publish?
    ensures Inv(s) && InTurn(s, a) ==> Inv(Next(Next(Next(s, a), b), c))
  {
    hide Inv, Next, Enabled;
    InvOfTwo(s, a, b);
    if Inv(s) && InTurn(s, a) {
      StepKeepsInv(Next(Next(s, a), b), c);
    }
  }

  lemma RunOfThree(s: State, a: Step, b: Step, c: Step)
    requires Enabled(s, a) && Enabled(Next(s, a), b) && Enabled(Next(Next(s, a), b), c)
    ensures IsRun([a, b, c], s) && After([a, b, c], s) == Next(Next(Next(s, a), b), c)
  {
    hide Next, Enabled, IsRun;
    TwoSteps(Next(s, a), b, c);
    FirstStep(s, a, [b, c]);
    assert [a] + [b, c] == [a, b, c];
  }
}
