/** The stand-alone multi-step page: a step counter moved by "Next" and
    "Previous" over the steps of a JSON form description, the two buttons'
    disabled states, and the message shown for a step without a title or a
    description. */
module MultiStepForm {
  import opened Wrappers

  /** One step of the form description; a missing key is None. */
  datatype StepSchema = StepSchema(title: Option<string>, description: Option<string>)

  datatype Move = NextMove | PreviousMove

  /** What the page renders. */
  datatype View =
    | InvalidSchema
    | StepView(title: string, description: string, previousDisabled: bool, nextDisabled: bool)

  /** A JavaScript value that is a non-empty string is truthy. */
  predicate Present(t: Option<string>) {
    t.Some? && t.value != ""
  }

  /** `nextStep`: one step forward unless at the last step. */
  function NextOf(count: int, step: int): (r: int)
    ensures r == step || r == step + 1
    ensures r == step + 1 <==> step < count - 1
  {
    if step < count - 1 then step + 1 else step
  }

  /** `prevStep`: one step back unless at the first step. */
  function PrevOf(step: int): (r: int)
    ensures r == step || r == step - 1
    ensures r == step - 1 <==> step > 0
  {
    if step > 0 then step - 1 else step
  }

  function Apply(count: int, step: int, moves: seq<Move>): int
    decreases |moves|
  {
    if moves == [] then step
    else
      var next := if moves[0] == NextMove then NextOf(count, step) else PrevOf(step);
      Apply(count, next, moves[1..])
  }

  /** From any step within the steps, every sequence of moves stays within them. */
  lemma {:induction false} MovesStayInRange(count: int, step: int, moves: seq<Move>)
    requires 0 <= step < count
    ensures 0 <= Apply(count, step, moves) < count
    decreases |moves|
  {
    if moves != [] {
      var next := if moves[0] == NextMove then NextOf(count, step) else PrevOf(step);
      MovesStayInRange(count, next, moves[1..]);
    }
  }

  /** `n` presses of "Next" from the start reach step `n`, or the last step if there are fewer. */
  lemma {:induction false} NextPressesReach(count: int, step: int, n: nat)
    requires 0 <= step < count
    ensures Apply(count, step, seq(n, _ => NextMove)) == if step + n < count then step + n else count - 1
    decreases n
  {
    if n > 0 {
      var moves := seq(n, _ => NextMove);
      assert moves[0] == NextMove && moves[1..] == seq(n - 1, _ => NextMove);
      NextPressesReach(count, NextOf(count, step), n - 1);
    }
  }

  /** The page for step `step` of `steps`. */
  function Render(steps: seq<StepSchema>, step: int): (v: View)
    ensures v.StepView? <==>
      0 <= step < |steps| && Present(steps[step].title) && Present(steps[step].description)
    ensures v.StepView? ==>
      v.title == steps[step].title.value && v.description == steps[step].description.value
    ensures v.StepView? ==> (v.previousDisabled <==> step == 0) && (v.nextDisabled <==> step == |steps| - 1)
  {
    if 0 <= step < |steps| && Present(steps[step].title) && Present(steps[step].description) then
      StepView(steps[step].title.value, steps[step].description.value, step == 0, step == |steps| - 1)
    else InvalidSchema
  }

  /** On a shown step, each button is disabled exactly where pressing it would change nothing. */
  lemma DisabledExactlyWhenStuck(steps: seq<StepSchema>, step: int)
    requires Render(steps, step).StepView?
    ensures Render(steps, step).previousDisabled <==> PrevOf(step) == step
    ensures Render(steps, step).nextDisabled <==> NextOf(|steps|, step) == step
  {
  }

  /** The page's state: the form description and the current step. */
  class StepForm {
    const steps: seq<StepSchema>
    var step: int

    /** The counter starts at the first step. */
    constructor (steps: seq<StepSchema>)
      ensures this.steps == steps && step == 0
      ensures Valid()
    {
      this.steps := steps;
      step := 0;
    }

    /** The counter is within the steps (when there are any). */
    predicate Valid()
      reads this
    {
      0 <= step && (|steps| > 0 ==> step < |steps|)
    }

    method NextStep()
      requires Valid()
      modifies this
      ensures step == NextOf(|steps|, old(step))
      ensures Valid()
    {
      if step < |steps| - 1 {
        step := step + 1;
      }
    }

    method PrevStep()
      requires Valid()
      modifies this
      ensures step == PrevOf(old(step))
      ensures Valid()
    {
      if step > 0 {
        step := step - 1;
      }
    }

    /** The page of the current step: the step's title and description
        when both are non-empty texts (an empty description list shows the
        invalid-schema message), with "Previous" disabled on the first step
        and "Next" on the last. */
    function Page(): (v: View)
      requires Valid()
      reads this
      ensures v.StepView? <==> |steps| > 0 && Present(steps[step].title) && Present(steps[step].description)
      ensures v.StepView? ==> v.title == steps[step].title.value && v.description == steps[step].description.value
      ensures v.StepView? ==> (v.previousDisabled <==> step == 0) && (v.nextDisabled <==> step == |steps| - 1)
    {
      Render(steps, step)
    }
  }
}
