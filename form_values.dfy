/** The dependency-aware folds of the wizard over its flat name-to-value store:
    the values sent on submit, the initial values, the per-field validation
    rules, and which fields a step displays. All four decide with one test:
    a field counts when it has no controller or its controller holds the
    field's condition. */
module FormValues {
  import opened Wrappers
  import opened Calendar
  import opened Types

  type Values = map<string, Value>

  /** `values[key]`: a key that is not stored reads as undefined. */
  function Lookup(values: Values, key: string): Value {
    if key in values then values[key] else Undefined
  }

  /** `v === c`, where an absent condition is undefined. Dates, file lists and
      arrays are objects and are never identical to a primitive. */
  predicate StrictEquals(v: Value, c: Option<Scalar>) {
    match c
    case None => v.Undefined?
    case Some(SStr(s)) => v == Str(s)
    case Some(SNum(n)) => v == Num(n)
    case Some(SBool(b)) => v == Bool(b)
  }

  /** `!dependsOn || values[dependsOn] === condition`; an empty controller name is falsy. */
  predicate Active(f: Field, values: Values) {
    f.dependsOn.None? || f.dependsOn.value == ""
    || StrictEquals(Lookup(values, f.dependsOn.value), f.condition)
  }

  /** Every field of every step, in document order. */
  function AllFields(schema: seq<Step>): (fs: seq<Field>)
    ensures forall k, f :: 0 <= k < |schema| && f in schema[k].fields ==> f in fs
  {
    FieldsFrom(schema, 0)
  }

  /** The fields of the steps from index `k` on. */
  function FieldsFrom(schema: seq<Step>, k: nat): (fs: seq<Field>)
    requires k <= |schema|
    ensures forall j, f :: k <= j < |schema| && f in schema[j].fields ==> f in fs
    decreases |schema| - k
  {
    if k == |schema| then [] else schema[k].fields + FieldsFrom(schema, k + 1)
  }

  function Names(fs: seq<Field>): set<string> {
    set f | f in fs :: f.name
  }

  /** The flat namespace: no two fields share a name. */
  predicate UniqueNames(fs: seq<Field>) {
    forall i, j :: 0 <= i < j < |fs| ==> fs[i].name != fs[j].name
  }

  /** `fields.forEach(field => acc[field.name] = entry(field))`. */
  function Assign<V>(fs: seq<Field>, acc: map<string, V>, entry: Field -> V): (r: map<string, V>)
    ensures r.Keys == acc.Keys + Names(fs)
  {
    if fs == [] then acc
    else
      var r := Assign(fs[1..], acc[fs[0].name := entry(fs[0])], entry);
      assert Names(fs) == {fs[0].name} + Names(fs[1..]);
      r
  }

  /** A name that no field carries keeps what the accumulator had. */
  lemma {:induction false} AssignOutside<V>(fs: seq<Field>, acc: map<string, V>, entry: Field -> V, k: string)
    requires k in acc && k !in Names(fs)
    ensures Assign(fs, acc, entry)[k] == acc[k]
  {
    if fs != [] {
      assert fs[0] in fs;
      assert Names(fs[1..]) <= Names(fs);
      AssignOutside(fs[1..], acc[fs[0].name := entry(fs[0])], entry, k);
    }
  }

  /** The last field carrying a name decides that name's entry. */
  lemma {:induction false} AssignLast<V>(fs: seq<Field>, acc: map<string, V>, entry: Field -> V, i: nat)
    requires i < |fs|
    requires forall j :: i < j < |fs| ==> fs[j].name != fs[i].name
    ensures Assign(fs, acc, entry)[fs[i].name] == entry(fs[i])
  {
    var acc' := acc[fs[0].name := entry(fs[0])];
    if i == 0 {
      assert fs[0].name !in Names(fs[1..]) by {
        forall f | f in fs[1..] ensures f.name != fs[0].name {
          var j :| 0 <= j < |fs[1..]| && fs[1..][j] == f;
          assert fs[j + 1] == f;
        }
      }
      AssignOutside(fs[1..], acc', entry, fs[0].name);
    } else {
      AssignLast(fs[1..], acc', entry, i - 1);
    }
  }

  /** With unique names, every field's own entry is what the fold stores. */
  lemma AssignUnique<V>(fs: seq<Field>, acc: map<string, V>, entry: Field -> V, f: Field)
    requires UniqueNames(fs) && f in fs
    ensures Assign(fs, acc, entry)[f.name] == entry(f)
  {
    var i :| 0 <= i < |fs| && fs[i] == f;
    AssignLast(fs, acc, entry, i);
  }

  // ---------------------------------------------------------------------
  // filterOptionalValues

  /** A field's value on submit: undefined when its condition does not hold. */
  function SubmittedValue(f: Field, values: Values): Value {
    if Active(f, values) then Lookup(values, f.name) else Undefined
  }

  /** `filterOptionalValues`: one entry per schema field name; stored keys
      that no field has are dropped. */
  function FilterOptionalValues(schema: seq<Step>, values: Values): (r: Values)
    ensures r.Keys == Names(AllFields(schema))
  {
    Assign(AllFields(schema), map[], f => SubmittedValue(f, values))
  }

  /** A field whose controller does not hold its condition is sent as
      undefined whatever it stored; every other field keeps its stored value. */
  lemma FilterOptionalValuesAt(schema: seq<Step>, values: Values, f: Field)
    requires UniqueNames(AllFields(schema)) && f in AllFields(schema)
    ensures !Active(f, values) ==> FilterOptionalValues(schema, values)[f.name] == Undefined
    ensures Active(f, values) ==> FilterOptionalValues(schema, values)[f.name] == Lookup(values, f.name)
  {
    AssignUnique(AllFields(schema), map[], f => SubmittedValue(f, values), f);
  }

  // ---------------------------------------------------------------------
  // getValidationSchema

  /** The rule a field is checked against: its own, or one that accepts anything. */
  datatype EffectiveRule = Own(rule: Rule) | AcceptAny

  function EffectiveRuleOf(f: Field, values: Values): EffectiveRule {
    if Active(f, values) then Own(f.rules) else AcceptAny
  }

  /** `getValidationSchema`. */
  function ValidationSchema(schema: seq<Step>, values: Values): (r: map<string, EffectiveRule>)
    ensures r.Keys == Names(AllFields(schema))
  {
    Assign(AllFields(schema), map[], f => EffectiveRuleOf(f, values))
  }

  function Accepts(r: EffectiveRule, v: Value, accepts: (Rule, Value) -> bool): bool {
    match r
    case AcceptAny => true
    case Own(rule) => accepts(rule, v)
  }

  // ---------------------------------------------------------------------
  // The render loop

  /** The fields of a step that are rendered, in order. */
  function DisplayedFields(fs: seq<Field>, values: Values): (r: seq<Field>)
    ensures |r| <= |fs|
    ensures forall f :: f in r <==> f in fs && Active(f, values)
  {
    if fs == [] then []
    else (if Active(fs[0], values) then [fs[0]] else []) + DisplayedFields(fs[1..], values)
  }

  datatype Widget =
    | TextWidget | TextareaWidget | PhoneWidget | CheckboxWidget | MultiCheckboxWidget
    | SelectWidget | RadioWidget | SwitchWidget | ComboboxWidget | BirthdateWidget | FileWidget

  /** The switch on `field.as`; a text field that is not a textarea falls to the default. */
  function WidgetFor(f: Field): Widget {
    match f.kind
    case TextKind(textAs, _, _, _, _, _, _, _, _) => if textAs == AsTextarea then TextareaWidget else TextWidget
    case PhoneKind(_) => PhoneWidget
    case CheckboxKind => CheckboxWidget
    case MultiCheckboxKind(_) => MultiCheckboxWidget
    case SelectKind(_, _) => SelectWidget
    case RadioKind(_) => RadioWidget
    case SwitchKind => SwitchWidget
    case ComboboxKind(_, _) => ComboboxWidget
    case BirthdateKind(_, _) => BirthdateWidget
    case FileKind(_) => FileWidget
  }

  /** The three uses of the dependency test agree: a field gets its own rule
      iff it is displayed iff its submitted value is not forced to undefined. */
  lemma DependencyAgreement(schema: seq<Step>, k: nat, values: Values, f: Field)
    requires k < |schema| && f in schema[k].fields
    requires UniqueNames(AllFields(schema))
    ensures ValidationSchema(schema, values)[f.name] == Own(f.rules)
        <==> f in DisplayedFields(schema[k].fields, values)
    ensures f in DisplayedFields(schema[k].fields, values)
        ==> FilterOptionalValues(schema, values)[f.name] == Lookup(values, f.name)
    ensures f !in DisplayedFields(schema[k].fields, values)
        ==> (ValidationSchema(schema, values)[f.name] == AcceptAny
             && FilterOptionalValues(schema, values)[f.name] == Undefined)
  {
    AssignUnique(AllFields(schema), map[], f => EffectiveRuleOf(f, values), f);
    FilterOptionalValuesAt(schema, values, f);
  }

  // ---------------------------------------------------------------------
  // Step validation (what `trigger` reports for the current step's names)

  /** The names of the given fields whose effective rule rejects their value, in order. */
  function StepErrors(fs: seq<Field>, rules: map<string, EffectiveRule>, values: Values,
                      accepts: (Rule, Value) -> bool): (errs: seq<string>)
    ensures forall n :: n in errs ==> exists f :: f in fs && f.name == n
  {
    if fs == [] then []
    else
      var r := if fs[0].name in rules then rules[fs[0].name] else AcceptAny;
      (if Accepts(r, Lookup(values, fs[0].name), accepts) then [] else [fs[0].name])
        + StepErrors(fs[1..], rules, values, accepts)
  }

  /** A step passes exactly when every one of its displayed fields satisfies
      its own rule; hidden fields and other steps' fields play no part. */
  lemma {:induction false} StepValidIff(schema: seq<Step>, k: nat, values: Values, accepts: (Rule, Value) -> bool)
    requires k < |schema| && UniqueNames(AllFields(schema))
    ensures StepErrors(schema[k].fields, ValidationSchema(schema, values), values, accepts) == []
        <==> forall f :: f in schema[k].fields && Active(f, values) ==> accepts(f.rules, Lookup(values, f.name))
  {
    var vs := ValidationSchema(schema, values);
    forall f | f in schema[k].fields
      ensures f.name in vs && vs[f.name] == EffectiveRuleOf(f, values)
    {
      AssignUnique(AllFields(schema), map[], f => EffectiveRuleOf(f, values), f);
    }
    StepErrorsEmptyIff(schema[k].fields, vs, values, accepts);
  }

  lemma {:induction false} StepErrorsEmptyIff(fs: seq<Field>, rules: map<string, EffectiveRule>, values: Values,
                                              accepts: (Rule, Value) -> bool)
    requires forall f :: f in fs ==> f.name in rules && rules[f.name] == EffectiveRuleOf(f, values)
    ensures StepErrors(fs, rules, values, accepts) == []
        <==> forall f :: f in fs && Active(f, values) ==> accepts(f.rules, Lookup(values, f.name))
  {
    if fs != [] {
      assert fs[0] in fs;
      StepErrorsEmptyIff(fs[1..], rules, values, accepts);
      assert forall f :: f in fs <==> f == fs[0] || f in fs[1..];
    }
  }

  // ---------------------------------------------------------------------
  // getDefaultValues

  /** `a ?? b`. */
  function Coalesce(a: Value, b: Value): Value {
    if a.Undefined? || a.Null? then b else a
  }

  /** A field's initial value: the stored value unless nullish, else the
      field's default unless nullish, else undefined; a non-empty string for a
      birthdate field is read as a date. */
  function InitialValue(f: Field, stored: Values): Value {
    var v := Coalesce(Coalesce(Lookup(stored, f.name), f.default), Undefined);
    if f.kind.BirthdateKind? && v.Str? && v.s != "" then DateV(ParseDate(v.s)) else v
  }

  /** `getDefaultValues`. */
  function DefaultValues(schema: seq<Step>, stored: Values): (r: Values)
    ensures r.Keys == Names(AllFields(schema))
  {
    Assign(AllFields(schema), map[], f => InitialValue(f, stored))
  }

  /** The stored value wins unless it is null or undefined, so a stored false,
      zero or empty string survives; only a birthdate's non-empty text changes
      form. Otherwise the default applies, and a null default reads as undefined. */
  lemma DefaultValuesAt(schema: seq<Step>, stored: Values, f: Field)
    requires UniqueNames(AllFields(schema)) && f in AllFields(schema)
    ensures var v := Lookup(stored, f.name);
      var r := DefaultValues(schema, stored)[f.name];
      && (!v.Undefined? && !v.Null? && !(f.kind.BirthdateKind? && v.Str? && v.s != "") ==> r == v)
      && (!v.Undefined? && !v.Null? && f.kind.BirthdateKind? && v.Str? && v.s != "" ==> r == DateV(ParseDate(v.s)))
      && ((v.Undefined? || v.Null?) && (f.default.Undefined? || f.default.Null?) ==> r == Undefined)
      && ((v.Undefined? || v.Null?) && !f.default.Undefined? && !f.default.Null?
          ==> r == if f.kind.BirthdateKind? && f.default.Str? && f.default.s != ""
                   then DateV(ParseDate(f.default.s)) else f.default)
  {
    AssignUnique(AllFields(schema), map[], f => InitialValue(f, stored), f);
  }

  /** With nothing stored, each field starts at its default (the values Reset restores). */
  lemma DefaultValuesOfEmptyStore(schema: seq<Step>, f: Field)
    requires UniqueNames(AllFields(schema)) && f in AllFields(schema)
    requires !(f.kind.BirthdateKind? && f.default.Str? && f.default.s != "")
    ensures DefaultValues(schema, map[])[f.name] == (if f.default.Null? then Undefined else f.default)
  {
    AssignUnique(AllFields(schema), map[], f => InitialValue(f, map[]), f);
  }

  /** A birthdate stored as the ISO text of a date is read back as that same date. */
  lemma BirthdateRehydrates(schema: seq<Step>, stored: Values, f: Field, t: int)
    requires UniqueNames(AllFields(schema)) && f in AllFields(schema)
    requires f.kind.BirthdateKind? && ValidTime(t) && Lookup(stored, f.name) == Str(IsoText(t))
    ensures DefaultValues(schema, stored)[f.name] == DateV(At(t))
  {
    AssignUnique(AllFields(schema), map[], f => InitialValue(f, stored), f);
    IsoTextRoundTrip(t);
    assert |IsoText(t)| > 0 by {
      IsoTextDatePart(t);
    }
  }
}
