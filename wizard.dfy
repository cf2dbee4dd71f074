/** The wizard: the chosen language, the current step, the submitted flag and
    the form store, with the transitions the buttons and links trigger. The
    rule check and the server's response are inputs. */
module Wizard {
  import opened Wrappers
  import opened Types
  import opened FormValues
  import opened Submission

  /** What the wizard shows, in priority order. */
  datatype Screen = LanguageGate | SuccessScreen | FormScreen(step: int)

  /** The answer to the POST, or a failure of the request itself. */
  datatype Response = Status(code: int) | NetworkError

  /** What a press of the submit button did: the errors of the current step,
      a move to the next step, a posted body and whether it was accepted, or
      an exception while building the body (nothing posted). */
  datatype Outcome = Rejected(errors: seq<string>) | Advanced | Posted(parts: seq<Part>, accepted: bool) | Failed

  /** `lng`, `step`, `send`, the form store and the defaults the form library
      keeps for `reset()`. */
  datatype State = State(lng: Option<string>, step: int, send: bool, values: Values, defaults: Values)

  predicate Succeeded(r: Response) {
    r.Status? && 200 <= r.code <= 299
  }

  predicate InRange(schema: seq<Step>, s: State) {
    0 <= s.step < |schema|
  }

  function ScreenOf(s: State): Screen {
    if s.lng.None? then LanguageGate else if s.send then SuccessScreen else FormScreen(s.step)
  }

  /** The "Previous" button is shown only past the first step. */
  predicate PreviousShown(s: State) {
    s.step > 0
  }

  /** The submit button reads "next" before the last step and "submit" on it. */
  predicate SubmitReadsNext(schema: seq<Step>, s: State) {
    s.step < |schema| - 1
  }

  /** The submit button: validate the current step's names; advance, or
      post the filtered values on the last step. A 2xx answer sets `send` and
      puts the form back to its defaults. */
  function NextOf(schema: seq<Step>, s: State, accepts: (Rule, Value) -> bool, response: Response): (State, Outcome)
    requires InRange(schema, s)
  {
    var errs := StepErrors(schema[s.step].fields, ValidationSchema(schema, s.values), s.values, accepts);
    if errs != [] then (s, Rejected(errs))
    else if s.step < |schema| - 1 then (s.(step := s.step + 1), Advanced)
    else match Payload(s.lng, SubmittedEntries(schema, s.values))
      case None => (s, Failed)
      case Some(parts) =>
        if Succeeded(response) then (s.(send := true, values := s.defaults), Posted(parts, true))
        else (s, Posted(parts, false))
  }

  /** The Reset link: `reset(getDefaultValues(schema, {}))` then step 0. */
  function ResetOf(schema: seq<Step>, s: State): State {
    var d := DefaultValues(schema, map[]);
    s.(step := 0, values := d, defaults := d)
  }

  /** The wizard as a stateful object; each method is its transition function. */
  class Wizard {
    const schema: seq<Step>
    var lng: Option<string>
    var step: int
    var send: bool
    var values: Values
    var defaults: Values

    function Snapshot(): State
      reads this
    {
      State(lng, step, send, values, defaults)
    }

    ghost predicate Valid()
      reads this
    {
      InRange(schema, Snapshot())
    }

    /** Mounting with the persisted language, step, flag and values. The
        persisted step is taken unchecked: one outside the steps mounts, but
        the form screen then reads a step that does not exist. */
    constructor(schema: seq<Step>, storedLng: Option<string>, storedStep: int, storedSend: bool, stored: Values)
      ensures Valid() <==> 0 <= storedStep < |schema|
      ensures this.schema == schema
      ensures Snapshot() == State(storedLng, storedStep, storedSend, DefaultValues(schema, stored), DefaultValues(schema, stored))
    {
      this.schema := schema;
      lng := storedLng;
      step := storedStep;
      send := storedSend;
      values := DefaultValues(schema, stored);
      defaults := DefaultValues(schema, stored);
    }

    function Screen(): Screen
      reads this
    {
      ScreenOf(Snapshot())
    }

    /** The language picker. */
    method ChooseLanguage(l: string)
      modifies this
      ensures Snapshot() == old(Snapshot()).(lng := Some(l))
    {
      lng := Some(l);
    }

    /** The "Choose your language" link clears only the language. */
    method ChangeLanguage()
      modifies this
      ensures Snapshot() == old(Snapshot()).(lng := None)
    {
      lng := None;
    }

    /** A widget writing a value into the form store. */
    method SetValue(name: string, v: Value)
      modifies this
      ensures Snapshot() == old(Snapshot()).(values := old(values)[name := v])
    {
      values := values[name := v];
    }

    method Next(accepts: (Rule, Value) -> bool, response: Response) returns (outcome: Outcome)
      requires Valid()
      modifies this
      ensures Valid()
      ensures (Snapshot(), outcome) == NextOf(schema, old(Snapshot()), accepts, response)
    {
      var errs := StepErrors(schema[step].fields, ValidationSchema(schema, values), values, accepts);
      if errs != [] {
        return Rejected(errs);
      }
      if step < |schema| - 1 {
        step := step + 1;
        return Advanced;
      }
      var body := Serialise(lng, SubmittedEntries(schema, values));
      if body.None? {
        return Failed;
      }
      if Succeeded(response) {
        send := true;
        values := defaults;
        return Posted(body.value, true);
      }
      return Posted(body.value, false);
    }

    /** The "Previous" button, which is only shown past the first step. */
    method Previous()
      requires Valid() && PreviousShown(Snapshot())
      modifies this
      ensures Valid()
      ensures Snapshot() == old(Snapshot()).(step := old(step) - 1)
    {
      step := step - 1;
    }

    method Reset()
      requires |schema| > 0
      modifies this
      ensures Valid()
      ensures Snapshot() == ResetOf(schema, old(Snapshot()))
    {
      var d := DefaultValues(schema, map[]);
      values := d;
      defaults := d;
      step := 0;
    }
  }

  /** "Next" stays within the steps and moves at most one step forward; it
      advances exactly when the step is not the last and every displayed field
      of the step satisfies its rule. */
  lemma NextAdvancesIffStepValid(schema: seq<Step>, s: State, accepts: (Rule, Value) -> bool, response: Response)
    requires InRange(schema, s) && UniqueNames(AllFields(schema))
    ensures InRange(schema, NextOf(schema, s, accepts, response).0)
    ensures NextOf(schema, s, accepts, response).0.step in {s.step, s.step + 1}
    ensures NextOf(schema, s, accepts, response).0.step == s.step + 1
      <==> (s.step < |schema| - 1
            && forall f :: f in schema[s.step].fields && Active(f, s.values) ==> accepts(f.rules, Lookup(s.values, f.name)))
  {
    StepValidIff(schema, s.step, s.values, accepts);
    NextStepMoves(schema, s, accepts, response);
  }

  /** How far one press of the submit button moves the step. */
  lemma NextStepMoves(schema: seq<Step>, s: State, accepts: (Rule, Value) -> bool, response: Response)
    requires InRange(schema, s)
    ensures NextOf(schema, s, accepts, response).0.step
      == if StepErrors(schema[s.step].fields, ValidationSchema(schema, s.values), s.values, accepts) == []
            && s.step < |schema| - 1
         then s.step + 1 else s.step
  {
    var errs := StepErrors(schema[s.step].fields, ValidationSchema(schema, s.values), s.values, accepts);
    if errs == [] && s.step == |schema| - 1 {
      var p := Payload(s.lng, SubmittedEntries(schema, s.values));
      if p.Some? && Succeeded(response) {
        assert NextOf(schema, s, accepts, response).0 == s.(send := true, values := s.defaults);
      } else {
        assert NextOf(schema, s, accepts, response).0 == s;
      }
    }
  }

  /** A rejected step changes nothing and names only fields of that step. */
  lemma RejectedChangesNothing(schema: seq<Step>, s: State, accepts: (Rule, Value) -> bool, response: Response)
    requires InRange(schema, s)
    requires NextOf(schema, s, accepts, response).1.Rejected?
    ensures NextOf(schema, s, accepts, response).0 == s
    ensures forall n :: n in NextOf(schema, s, accepts, response).1.errors ==> n in Names(schema[s.step].fields)
  {
    var errs := NextOf(schema, s, accepts, response).1.errors;
    forall n | n in errs ensures n in Names(schema[s.step].fields) {
      var f :| f in schema[s.step].fields && f.name == n;
    }
  }

  /** Only a valid last step posts, and a valid last step always posts
      unless its values cannot be serialised; what it posts is the payload of
      the filtered values, and the step does not move. `send` becomes true, and
      the form returns to its defaults, exactly when the answer is a 2xx
      status; anything else leaves the state as it was. */
  lemma SubmitOnLastStep(schema: seq<Step>, s: State, accepts: (Rule, Value) -> bool, response: Response)
    requires InRange(schema, s)
    ensures var (s', o) := NextOf(schema, s, accepts, response);
      && (o.Posted? ==>
            (s.step == |schema| - 1
             && Payload(s.lng, SubmittedEntries(schema, s.values)) == Some(o.parts)
             && s'.step == s.step && (o.accepted <==> Succeeded(response))))
      && (o.Posted? && o.accepted ==> s' == s.(send := true, values := s.defaults))
      && (!(o.Posted? && o.accepted) ==> s'.send == s.send && s'.values == s.values && s'.defaults == s.defaults)
      && (s'.send && !s.send ==> o.Posted? && Succeeded(response))
      && (o.Posted? ==> StepErrors(schema[s.step].fields, ValidationSchema(schema, s.values), s.values, accepts) == [])
      && (s.step == |schema| - 1
          && StepErrors(schema[s.step].fields, ValidationSchema(schema, s.values), s.values, accepts) == []
          ==> match Payload(s.lng, SubmittedEntries(schema, s.values))
              case Some(p) => o == Posted(p, Succeeded(response))
              case None => o == Failed && s' == s)
  {
  }

  /** Reset returns to the first step with every field at its schema
      default, and keeps the language and the submitted flag. */
  lemma ResetRestoresDefaults(schema: seq<Step>, s: State, f: Field)
    requires |schema| > 0 && UniqueNames(AllFields(schema)) && f in AllFields(schema)
    requires !(f.kind.BirthdateKind? && f.default.Str? && f.default.s != "")
    ensures ResetOf(schema, s).values[f.name] == (if f.default.Null? then Undefined else f.default)
    ensures ResetOf(schema, s).step == 0
    ensures ResetOf(schema, s).lng == s.lng && ResetOf(schema, s).send == s.send
  {
    DefaultValuesOfEmptyStore(schema, f);
  }

  /** A successful submission right after a reset stores those same defaults. */
  lemma ResetThenSubmit(schema: seq<Step>, s: State, accepts: (Rule, Value) -> bool, response: Response)
    requires |schema| > 0
    ensures var r := ResetOf(schema, s);
      var n := NextOf(schema, r, accepts, response);
      n.1.Posted? && n.1.accepted ==> n.0.values == DefaultValues(schema, map[])
  {
    var r := ResetOf(schema, s);
    var n := NextOf(schema, r, accepts, response);
    if n.1.Posted? && n.1.accepted {
      assert n.0 == r.(send := true, values := r.defaults);
    }
  }

  /** Leaving for the language picker and choosing a language again returns
      to the same screen with all progress kept; while no language is set the
      picker hides even the success screen. */
  lemma LanguageRoundTrip(s: State, l: string)
    ensures ScreenOf(s.(lng := None)) == LanguageGate
    ensures s.lng.Some? ==> ScreenOf(s.(lng := None).(lng := Some(l))) == ScreenOf(s)
    ensures s.send ==> (ScreenOf(s) == SuccessScreen <==> s.lng.Some?)
  {
  }

  /** Advancing and then going back returns to the same step with the same values. */
  lemma NextThenPrevious(schema: seq<Step>, s: State, accepts: (Rule, Value) -> bool, response: Response)
    requires InRange(schema, s)
    requires NextOf(schema, s, accepts, response).1.Advanced?
    ensures PreviousShown(NextOf(schema, s, accepts, response).0)
    ensures var s' := NextOf(schema, s, accepts, response).0;
      s'.step == s.step + 1 && s'.(step := s'.step - 1) == s
    ensures SubmitReadsNext(schema, s)
  {
  }
}
