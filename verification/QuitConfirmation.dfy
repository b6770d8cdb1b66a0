/** Leaving the TUI with unsaved edits (app/content_persistence.go: handleQuit, invalidateQuitConfirmationAfter,
    beginUserInput). A save that fails refuses the quit once; an identical failure on the very next quit discards. */
module QuitConfirmation {
  import opened Wrappers

  /** The text of a save error. saveContentPaneState words each error it joins with a prefix of its own, so none is
      empty; handleQuit relies on that, taking "" for "no confirmation armed". */
  type ErrorText = s: string | s != "" witness "?"

  /** A message to the model. A key or mouse input either quits (with what the save answers and whether a notice is due
      first) or does anything else; the recovery notice is raised in the background. */
  datatype Message =
    | Quit(saveError: Option<ErrorText>, notice: bool)
    | OtherInput
    | RecoveryRaised

  datatype Effect =
    | Nothing
    | Dismissed              // the input only took the recovery notice down
    | RefusedQuit(error: ErrorText)
    | Discarded(error: ErrorText)
    | Saved

  /** `failure` is quitSaveFailure, "" when no confirmation is armed. */
  datatype State = State(failure: string, attempted: bool, recovery: bool, quitting: bool)

  const START := State("", false, false, false)

  function Next(s: State, m: Message): (State, Effect) {
    match m
    case RecoveryRaised => (s.(recovery := true), Nothing)
    case OtherInput =>
      if s.recovery then (s.(recovery := false), Dismissed)
      else if s.failure == "" then (s, Nothing)
      else (s.(attempted := false, failure := ""), Nothing)
    case Quit(saveError, notice) =>
      if s.recovery then (s.(recovery := false), Dismissed)
      else if saveError.Some? && s.failure != saveError.value then
        (s.(attempted := true, failure := saveError.value), RefusedQuit(saveError.value))
      else
        (s.(attempted := true, failure := "", quitting := s.quitting || !notice),
         if saveError.Some? then Discarded(saveError.value) else Saved)
  }

  // ----- the code

  class Home {
    var failure: string
    var attempted: bool
    var recovery: bool
    var quitting: bool

    ghost function View(): State
      reads this
    {
      State(failure, attempted, recovery, quitting)
    }

    constructor ()
      ensures View() == START
    {
      failure, attempted, recovery, quitting := "", false, false, false;
    }

    /** handleQuit. */
    method HandleQuit(saveError: Option<ErrorText>, notice: bool) returns (effect: Effect)
      modifies this`failure, this`attempted, this`quitting
      ensures attempted
      ensures if saveError.Some? && old(failure) != saveError.value
              then failure == saveError.value && effect == RefusedQuit(saveError.value) && quitting == old(quitting)
              else && failure == "" && quitting == (old(quitting) || !notice)
                   && effect == if saveError.Some? then Discarded(saveError.value) else Saved
    {
      attempted := true;
      effect := Saved;
      if saveError.Some? {
        if failure != saveError.value {
          failure := saveError.value;
          return RefusedQuit(saveError.value);
        }
        effect := Discarded(saveError.value);
      }
      failure := "";
      if !notice {
        quitting := true;
      }
    }

    /** One message: the input prologue, the handler, and the deferred epilogue. */
    method Update(m: Message) returns (effect: Effect)
      modifies this
      ensures (View(), effect) == Next(old(View()), m)
    {
      effect := Nothing;
      if m.RecoveryRaised? {
        recovery := true;
        return;
      }
      if recovery {
        recovery := false;
        return Dismissed;
      }
      var armed := failure != "";
      if armed {
        attempted := false;
      }
      if m.Quit? {
        effect := HandleQuit(m.saveError, m.notice);
      }
      if armed && !attempted {
        failure := "";
      }
    }
  }

  // ----- whole runs

  /** The state before message `i` of a run. */
  function At(run: seq<Message>, i: nat): State
    requires i <= |run|
  {
    if i == 0 then START else Next(At(run, i - 1), run[i - 1]).0
  }

  function EffectAt(run: seq<Message>, i: nat): Effect
    requires i < |run|
  {
    Next(At(run, i), run[i]).1
  }

  /** Messages that leave an armed confirmation alone. */
  predicate Transparent(run: seq<Message>, i: nat)
    requires i < |run|
  {
    run[i].RecoveryRaised? || EffectAt(run, i).Dismissed?
  }

  /** Before message `i`, the last input that was not a dismissal was a quit refused with `error`. */
  predicate RefusedJustBefore(run: seq<Message>, i: nat, error: ErrorText)
    requires i <= |run|
  {
    exists j :: 0 <= j < i && EffectAt(run, j) == RefusedQuit(error) && forall k :: j < k < i ==> Transparent(run, k)
  }

  /** An armed confirmation always answers the refusal just before. */
  lemma {:induction false} ArmedByRefusal(run: seq<Message>, i: nat)
    requires i <= |run|
    ensures At(run, i).failure != "" ==> RefusedJustBefore(run, i, At(run, i).failure)
    decreases i
  {
    if i > 0 && At(run, i).failure != "" {
      var n := i - 1;
      ArmedByRefusal(run, n);
      if !EffectAt(run, n).RefusedQuit? {
        var error := At(run, i).failure;
        assert Transparent(run, n) && At(run, n).failure == error;
        var j :| 0 <= j < n && EffectAt(run, j) == RefusedQuit(error) && forall k :: j < k < n ==> Transparent(run, k);
        assert forall k :: j < k < i ==> Transparent(run, k);
      }
    }
  }

  /** In every run, unsaved edits are discarded only by a quit that follows a quit refused with the identical error,
      with nothing but recovery-notice dismissals in between. */
  lemma DiscardIsConfirmed(run: seq<Message>, i: nat)
    requires i < |run| && EffectAt(run, i).Discarded?
    ensures RefusedJustBefore(run, i, EffectAt(run, i).error)
  {
    ArmedByRefusal(run, i);
  }

  /** And every quit whose save fails, unless it only dismisses a notice, discards exactly when the refusal just before
      had the same text. */
  lemma DiscardIff(run: seq<Message>, i: nat, error: ErrorText)
    requires i < |run| && run[i].Quit? && run[i].saveError == Some(error) && !At(run, i).recovery
    ensures EffectAt(run, i) == Discarded(error) <==> RefusedJustBefore(run, i, error)
  {
    hide Transparent, At, RefusedJustBefore;
    ArmedByRefusal(run, i);
    if RefusedJustBefore(run, i, error) {
      RefusalArms(run, i, error);
    }
  }

  lemma RefusalArms(run: seq<Message>, i: nat, error: ErrorText)
    requires i <= |run| && RefusedJustBefore(run, i, error)
    ensures At(run, i).failure == error
  {
    hide Transparent, At;
    var j :| 0 <= j < i && EffectAt(run, j) == RefusedQuit(error) && forall k :: j < k < i ==> Transparent(run, k);
    RefusedArms(run, j, error);
    StaysArmed(run, j + 1, i);
  }

  /** What every message does, in any run. With the notice up, an input takes it down and does nothing else; a quit
      otherwise saves, refuses or discards, and the program ends only by a quit that went through with no notice due. */
  lemma EffectIff(run: seq<Message>, i: nat)
    requires i < |run|
    ensures EffectAt(run, i) == Dismissed <==> At(run, i).recovery && !run[i].RecoveryRaised?
    ensures EffectAt(run, i) == Dismissed ==> At(run, i + 1) == At(run, i).(recovery := false)
    ensures At(run, i + 1).recovery <==> run[i].RecoveryRaised?
    ensures EffectAt(run, i) == Saved <==> run[i].Quit? && run[i].saveError.None? && !At(run, i).recovery
    ensures EffectAt(run, i).Discarded? || EffectAt(run, i).RefusedQuit? <==>
              run[i].Quit? && run[i].saveError.Some? && !At(run, i).recovery
    ensures EffectAt(run, i).Discarded? ==> EffectAt(run, i) == Discarded(run[i].saveError.value)
    ensures EffectAt(run, i).RefusedQuit? ==> EffectAt(run, i) == RefusedQuit(run[i].saveError.value)
    ensures At(run, i + 1).quitting <==>
              || At(run, i).quitting
              || ((EffectAt(run, i) == Saved || EffectAt(run, i).Discarded?) && !run[i].notice)
  {
  }

  lemma RefusedArms(run: seq<Message>, j: nat, error: ErrorText)
    requires j < |run| && EffectAt(run, j) == RefusedQuit(error)
    ensures At(run, j + 1).failure == error
  {
  }

  lemma {:induction false} StaysArmed(run: seq<Message>, j: nat, i: nat)
    requires j <= i <= |run| && forall k :: j <= k < i ==> Transparent(run, k)
    ensures At(run, i).failure == At(run, j).failure
    decreases i - j
  {
    if j < i {
      StaysArmed(run, j, i - 1);
      assert Transparent(run, i - 1);
    }
  }
}
