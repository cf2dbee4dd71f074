/** The shared field wrapper: which rules mark a field's label as required,
    and the label text it renders. */
module BaseField {
  import opened Types

  /** `isRequired`: a literal `true` is required; optional, nullable and
      boolean rules are not (their inner rule is not looked at); a union is
      required when every alternative is; every other rule is required. */
  function IsRequired(r: Rule): bool
    decreases r
  {
    if r.Literal? && r.value == SBool(true) then true
    else if r.Optional? || r.Nullable? || r.BooleanRule? then false
    else if r.Union? then forall i :: 0 <= i < |r.options| ==> IsRequired(r.options[i])
    else true
  }

  /** A rule that lets a value be left out. */
  predicate Escapes(r: Rule) {
    r.Optional? || r.Nullable? || r.BooleanRule?
  }

  /** The rules reached by looking through unions, in order. */
  function Leaves(r: Rule): (ls: seq<Rule>)
    ensures forall i :: 0 <= i < |ls| ==> !ls[i].Union?
    decreases r, 1
  {
    if r.Union? then LeavesOf(r.options) else [r]
  }

  function LeavesOf(rs: seq<Rule>): (ls: seq<Rule>)
    ensures forall i :: 0 <= i < |ls| ==> !ls[i].Union?
    decreases rs, 0
  {
    if rs == [] then [] else Leaves(rs[0]) + LeavesOf(rs[1..])
  }

  predicate NoneEscape(ls: seq<Rule>) {
    forall i :: 0 <= i < |ls| ==> !Escapes(ls[i])
  }

  lemma NoneEscapeConcat(a: seq<Rule>, b: seq<Rule>)
    ensures NoneEscape(a + b) <==> NoneEscape(a) && NoneEscape(b)
  {
    if NoneEscape(a + b) {
      forall i | 0 <= i < |a| ensures !Escapes(a[i]) {
        assert (a + b)[i] == a[i];
      }
      forall i | 0 <= i < |b| ensures !Escapes(b[i]) {
        assert (a + b)[|a| + i] == b[i];
      }
    }
  }

  /** A rule is required exactly when no rule reached through its unions lets
      the value be left out. */
  lemma {:induction false} RequiredIffNoLeafEscapes(r: Rule)
    ensures IsRequired(r) <==> NoneEscape(Leaves(r))
    decreases r, 1
  {
    if r.Union? {
      AllRequiredIffNoLeafEscapes(r.options);
      assert Leaves(r) == LeavesOf(r.options);
      assert IsRequired(r) <==> forall i :: 0 <= i < |r.options| ==> IsRequired(r.options[i]);
    } else {
      assert Leaves(r) == [r] && [r][0] == r;
      assert IsRequired(r) <==> !Escapes(r);
    }
  }

  lemma {:induction false} AllRequiredIffNoLeafEscapes(rs: seq<Rule>)
    ensures (forall i :: 0 <= i < |rs| ==> IsRequired(rs[i])) <==> NoneEscape(LeavesOf(rs))
    decreases rs, 0
  {
    if rs != [] {
      RequiredIffNoLeafEscapes(rs[0]);
      AllRequiredIffNoLeafEscapes(rs[1..]);
      NoneEscapeConcat(Leaves(rs[0]), LeavesOf(rs[1..]));
      assert (forall i :: 0 <= i < |rs| ==> IsRequired(rs[i]))
        <==> IsRequired(rs[0]) && (forall i :: 0 <= i < |rs[1..]| ==> IsRequired(rs[1..][i])) by {
        if IsRequired(rs[0]) && (forall i :: 0 <= i < |rs[1..]| ==> IsRequired(rs[1..][i])) {
          forall i | 1 <= i < |rs| ensures IsRequired(rs[i]) {
            assert rs[i] == rs[1..][i - 1];
          }
        }
      }
    }
  }

  /** An empty union is required, and a union of two rules is required iff both are. */
  lemma UnionCases(a: Rule, b: Rule)
    ensures IsRequired(Union([]))
    ensures IsRequired(Union([a, b])) <==> IsRequired(a) && IsRequired(b)
  {
    assert Union([a, b]).options[0] == a && Union([a, b]).options[1] == b;
  }

  /** The label text: the label, the non-breaking-space-and-asterisk marker
      when the rule is required, then a non-breaking space and a colon. */
  function RenderedLabel(labelText: string, rules: Rule): (text: string)
    ensures |text| >= |labelText|
    ensures text[..|labelText|] == labelText
    ensures '*' in text[|labelText|..] <==> IsRequired(rules)
    ensures |text| >= 2 && text[|text| - 2..] == "\U{00A0}:"
  {
    var marker := if IsRequired(rules) then "\U{00A0}*" else "";
    var text := labelText + marker + "\U{00A0}:";
    assert text[|labelText|..] == marker + "\U{00A0}:";
    text
  }
}
