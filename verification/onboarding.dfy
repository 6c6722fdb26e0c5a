/** The first-run tour of components/Onboarding.tsx: an overlay of five steps
    paged with Next and Back (or Skip on the first step), shown until the user
    finishes or skips it, which is remembered in the browser's local storage. */
module Onboarding {

  /** The local-storage key that records a finished tour. */
  const OnboardingKey := "7k-snapnotes-onboarding-completed-v1"

  /** The value stored under OnboardingKey when the tour is finished. */
  const CompletedValue := "true"

  /** The titles of the steps, in order (their icons and descriptions are
      presentation only). */
  const StepTitles: seq<string> := [
    "Welcome to 7K SnapNotes!",
    "1. Scan Anything",
    "2. Save Your Notes",
    "3. Auto-Generate Flashcards",
    "Ready to Go!"
  ]

  /** The index of the last step. */
  const LastStep := |StepTitles| - 1

  /** `isLastStep`: the step where Next reads "Get Started" and finishes the
      tour. */
  predicate IsLastStep(step: int)
  {
    step == LastStep
  }

  /** The button at the left of the footer. */
  datatype LeftButton = Skip | Back

  /** Skip on the first step, Back on every other one. */
  function LeftButtonAt(step: int): LeftButton
  {
    if step == 0 then Skip else Back
  }

  /** The label of the right-hand button. */
  function NextLabel(step: int): string
  {
    if IsLastStep(step) then "Get Started" else "Next"
  }

  /** The step Next moves to: one on, except on the last step, where Next
      finishes the tour instead and the step stays. */
  function NextStep(step: int): int
  {
    if step < LastStep then step + 1 else step
  }

  /** The step Back moves to: one back, except on the first step. */
  function PrevStep(step: int): int
  {
    if step > 0 then step - 1 else step
  }

  /** `!localStorage.getItem(key)`: a missing key and an empty value are both
      falsy, so either one shows the tour. */
  predicate ShowsOnMount(storage: map<string, string>)
  {
    OnboardingKey !in storage || storage[OnboardingKey] == ""
  }

  /** Next and Back keep the step among the tour's steps; Next moves on
      exactly when it is not on the last step, and Back moves back exactly
      when it is not on the first. */
  lemma StepsStayInTour(step: int)
    requires 0 <= step <= LastStep
    ensures 0 <= NextStep(step) <= LastStep && 0 <= PrevStep(step) <= LastStep
    ensures NextStep(step) == step + 1 <==> !IsLastStep(step)
    ensures PrevStep(step) == step - 1 <==> step != 0
  {
  }

  /** Back undoes Next before the last step, and Next undoes Back after the
      first. */
  lemma NextPrevInverse(step: int)
    requires 0 <= step <= LastStep
    ensures !IsLastStep(step) ==> PrevStep(NextStep(step)) == step
    ensures step != 0 ==> NextStep(PrevStep(step)) == step
  {
  }

  /** The footer: the left button is Skip exactly on the first step, and the
      right button reads "Get Started" exactly on the last one. */
  lemma FooterButtons(step: int)
    requires 0 <= step <= LastStep
    ensures LeftButtonAt(step) == Skip <==> step == 0
    ensures NextLabel(step) == "Get Started" <==> step == LastStep
  {
  }

  /** Finishing the tour in one session hides it on every later mount, and
      leaves every other stored entry alone. */
  lemma CompletionIsRemembered(storage: map<string, string>)
    ensures !ShowsOnMount(storage[OnboardingKey := CompletedValue])
    ensures forall k :: k in storage && k != OnboardingKey ==>
              k in storage[OnboardingKey := CompletedValue] &&
              storage[OnboardingKey := CompletedValue][k] == storage[k]
  {
  }

  /** The tour's state, and the local storage it reads and writes. */
  class Tour {
    var step: int
    var isVisible: bool
    var direction: int
    var storage: map<string, string>

    /** The step on show is one of the tour's steps. */
    predicate Valid()
      reads this
    {
      0 <= step <= LastStep
    }

    /** The component before its mount effect: first step, hidden. */
    constructor(storage: map<string, string>)
      ensures Valid()
      ensures step == 0 && !isVisible && direction == 0 && this.storage == storage
    {
      step := 0;
      isVisible := false;
      direction := 0;
      this.storage := storage;
    }

    /** The mount effect: shows the overlay when the completion flag is not
        set, and otherwise leaves it as it is. */
    method Mount()
      modifies this
      ensures isVisible == (old(isVisible) || ShowsOnMount(storage))
      ensures step == old(step) && direction == old(direction) && storage == old(storage)
    {
      if ShowsOnMount(storage) {
        isVisible := true;
      }
    }

    /** `completeOnboarding`: records the flag and hides the overlay. */
    method CompleteOnboarding()
      modifies this
      ensures storage == old(storage)[OnboardingKey := CompletedValue]
      ensures !isVisible && !ShowsOnMount(storage)
      ensures step == old(step) && direction == old(direction)
    {
      storage := storage[OnboardingKey := CompletedValue];
      isVisible := false;
    }

    /** `handleNext`: one step on with a forward slide; on the last step,
        finishes the tour instead. */
    method HandleNext()
      requires Valid()
      modifies this
      ensures Valid() && step == NextStep(old(step))
      ensures !IsLastStep(old(step)) ==>
                direction == 1 && isVisible == old(isVisible) && storage == old(storage)
      ensures IsLastStep(old(step)) ==>
                direction == old(direction) && !isVisible &&
                storage == old(storage)[OnboardingKey := CompletedValue]
    {
      if step < LastStep {
        direction := 1;
        step := step + 1;
      } else {
        CompleteOnboarding();
      }
    }

    /** `handlePrev`: one step back with a backward slide; nothing on the
        first step. */
    method HandlePrev()
      requires Valid()
      modifies this
      ensures Valid() && step == PrevStep(old(step))
      ensures isVisible == old(isVisible) && storage == old(storage)
      ensures direction == if old(step) > 0 then -1 else old(direction)
    {
      if step > 0 {
        direction := -1;
        step := step - 1;
      }
    }

    /** A click on the left footer button: Skip finishes the tour, Back goes
        one step back. */
    method ClickLeftButton()
      requires Valid()
      modifies this
      ensures Valid()
      ensures old(LeftButtonAt(step)) == Skip ==>
                !isVisible && step == old(step) && direction == old(direction) &&
                storage == old(storage)[OnboardingKey := CompletedValue]
      ensures old(LeftButtonAt(step)) == Back ==>
                step == old(step) - 1 && direction == -1 && isVisible == old(isVisible) &&
                storage == old(storage)
    {
      if LeftButtonAt(step) == Skip {
        CompleteOnboarding();
      } else {
        HandlePrev();
      }
    }
  }
}
