/** Whose rows are offered: those of the admitted, and of nobody else, whatever the other
    threads do in between. */
module LoadAdmissions {
  import opened LoadRuns

  /** No step takes one of these users out, and no window asks for another. */
  predicate Concerns(steps: seq<Step>, users: set<User>) {
    forall step <- steps ::
      && (step.Pause? ==> step.users !! users)
      && (step.Begin? ==> forall u <- step.rows :: u in users)
  }

  /** These users are admitted, and nothing of theirs was withheld. */
  ghost predicate NoneWithheld(e: Engine, users: set<User>) {
    && users <= e.calling
    && (!e.offerer.Resting? ==> e.offerer.play.withheld == 0 && forall u <- e.offerer.play.rows :: u in users)
    && (forall w <- e.windows :: w.play.withheld == 0)
  }

  /** As long as everybody a window asks for is admitted and none of them is paused, no
      row of any window is withheld. */
  lemma {:induction false} AdmittedAreOffered(e: Engine, steps: seq<Step>, users: set<User>)
    requires Feasible(e, steps) && Concerns(steps, users) && NoneWithheld(e, users)
    ensures NoneWithheld(After(e, steps), users)
    decreases |steps|
  {
    if steps != [] {
      assert steps[0] in steps;
      AdmittedAreOffered(Next(e, steps[0]), steps[1..], users);
    }
  }

  function InWindows(windows: seq<Settlement>, u: User): nat {
    if windows == [] then 0
    else InWindows(windows[..|windows| - 1], u) + |OfUser(windows[|windows| - 1].offered, u)|
  }

  /** How many calls the user was offered so far. */
  function OfferedTo(e: Engine, u: User): nat {
    InWindows(e.windows, u) + |OfUser(e.log, u)|
  }

  /** A row of the user is counted and about to be queued. */
  predicate AboutToBe(e: Engine, u: User) {
    e.offerer.Counted? && e.offerer.play.i < |e.offerer.play.rows| && e.offerer.play.rows[e.offerer.play.i] == u
  }

  lemma OutsideStaysOutside(e: Engine, step: Step, u: User)
    requires Enabled(e, step) && u !in e.calling && !AboutToBe(e, u) && step != Admit(u)
    requires step.Begin? ==> e.log == []
    ensures var e' := Next(e, step); u !in e'.calling && !AboutToBe(e', u) && OfferedTo(e', u) == OfferedTo(e, u)
  {
    if step.Enqueue? {
      var play := e.offerer.play;
      OfUserAppend(e.log, Call(play.rows[play.i], Item(play.i, play.phase)), u);
    }
    if step.Close? {
      assert Next(e, step).windows[..|e.windows|] == e.windows;
    }
  }

  /** A user that was never admitted, or was paused, is offered no further call until it
      is admitted, a row already counted apart. */
  lemma {:induction false} OnlyTheAdmittedAreOffered(e: Engine, steps: seq<Step>, u: User)
    requires Inv(e) && Feasible(e, steps) && u !in e.calling && !AboutToBe(e, u) && Admit(u) !in steps
    ensures OfferedTo(After(e, steps), u) == OfferedTo(e, u)
    decreases |steps|
  {
    if steps != [] {
      assert steps[0] in steps;
      OutsideStaysOutside(e, steps[0], u);
      StepKeepsInv(e, steps[0], Next(e, steps[0]));
      OnlyTheAdmittedAreOffered(Next(e, steps[0]), steps[1..], u);
    }
  }
}
