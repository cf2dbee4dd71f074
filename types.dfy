/** The form's data model: the values a field can hold, the shape of a
    validation rule, the ten field variants and the step that groups them. */
module Types {
  import opened Wrappers
  import opened Calendar

  /** An uploaded file; the form never looks at its contents. */
  datatype FileItem = FileItem(id: nat)

  /** A value held in the form store under a field name. `Null` is what the
      birthdate picker writes for an incomplete date and `Strings` what the
      multi-checkbox writes; neither belongs to the declared `DefaultTypes`. */
  datatype Value =
    | Undefined
    | Null
    | Str(s: string)
    | Num(n: int)
    | Bool(b: bool)
    | DateV(time: Time)
    | Files(files: seq<FileItem>)
    | Strings(items: seq<string>)

  /** The declared union `string | number | boolean | Date | FileList | undefined`. */
  predicate IsDefaultType(v: Value) {
    !v.Null? && !v.Strings?
  }

  /** The type of a dependency's `condition`. */
  datatype Scalar = SStr(s: string) | SNum(n: int) | SBool(b: bool)

  /** A validation rule, kept to the shape that the required-marker inspects:
      a literal, an optional or nullable wrapper, a boolean, a union of
      alternatives, or any other rule (identified only by a number). */
  datatype Rule =
    | Literal(value: Scalar)
    | Optional(inner: Rule)
    | Nullable(inner: Rule)
    | BooleanRule
    | Union(options: seq<Rule>)
    | OtherRule(id: nat)

  datatype Choice = Choice(value: string, labelText: string)
  datatype ComboChoice = ComboChoice(value: string, labelText: string, flag: Option<string>)

  /** The text variant's `as`: 'input', 'textarea' or absent. */
  datatype TextAs = AsInput | AsTextarea | AsAbsent

  /** The variant-specific part of a field, discriminated by `as`. */
  datatype Kind =
    | TextKind(textAs: TextAs, inputType: Option<string>, minLength: Option<int>, maxLength: Option<int>,
               min: Option<int>, max: Option<int>, stepSize: Option<int>, pattern: Option<string>,
               placeholder: Option<string>)
    | PhoneKind(placeholder: Option<string>)
    | CheckboxKind
    | MultiCheckboxKind(options: seq<Choice>)
    | SelectKind(placeholder: Option<string>, options: seq<Choice>)
    | RadioKind(options: seq<Choice>)
    | SwitchKind
    | ComboboxKind(placeholder: Option<string>, comboOptions: seq<ComboChoice>)
    | BirthdateKind(minDate: Option<Time>, maxDate: Option<Time>)
    | FileKind(accept: Option<string>)

  /** A field: the common part every variant has, and its variant. An absent
      `default` is `Undefined`. */
  datatype Field = Field(
    name: string,
    labelText: string,
    rules: Rule,
    default: Value,
    description: Option<string>,
    dependsOn: Option<string>,
    condition: Option<Scalar>,
    kind: Kind)

  datatype Step = Step(title: Option<string>, description: Option<string>, fields: seq<Field>)

  /** `'placeholder' in field`. A missing key is None; a key that is
      present but holds `undefined` is not expressible here, and reads as
      missing. */
  predicate HasPlaceholder(f: Field) {
    match f.kind
    case TextKind(_, _, _, _, _, _, _, _, p) => p.Some?
    case PhoneKind(p) => p.Some?
    case SelectKind(p, _) => p.Some?
    case ComboboxKind(p, _) => p.Some?
    case _ => false
  }

  /** Only four variants can carry a placeholder, and a field of any of them
      that sets one passes the check. */
  lemma PlaceholderVariants(f: Field)
    ensures HasPlaceholder(f) ==>
      f.kind.TextKind? || f.kind.PhoneKind? || f.kind.SelectKind? || f.kind.ComboboxKind?
    ensures (f.kind.TextKind? || f.kind.PhoneKind? || f.kind.SelectKind? || f.kind.ComboboxKind?)
      ==> (HasPlaceholder(f) <==> f.kind.placeholder.Some?)
  {
  }

  /** The check is declared as narrowing a field to the text variant, but a
      select field with a placeholder passes it too. */
  lemma PlaceholderGuardAdmitsOtherVariants()
    ensures exists f: Field :: HasPlaceholder(f) && !f.kind.TextKind?
  {
    var f := Field("country", "Country", OtherRule(0), Undefined, None, None, None,
                   SelectKind(Some("Choose"), []));
    assert HasPlaceholder(f) && !f.kind.TextKind?;
  }
}
