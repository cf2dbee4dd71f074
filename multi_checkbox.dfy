/** The multi-checkbox field: the list of ticked values it keeps in the
    form store, and how ticking or unticking an option changes that list. */
module MultiCheckbox {
  import opened Types
  import opened FormValues
  import opened Wizard

  /** The stored value when it is an array, otherwise the empty list. */
  function SelectedValues(v: Value): (r: seq<string>)
    ensures v.Strings? ==> r == v.items
    ensures !v.Strings? ==> r == []
  {
    if v.Strings? then v.items else []
  }

  /** `list.filter(v => v !== value)`. */
  function Without(s: seq<string>, value: string): (r: seq<string>)
    ensures value !in r
    ensures forall x :: x in r <==> x in s && x != value
    ensures |r| <= |s|
  {
    if s == [] then []
    else Without(s[..|s| - 1], value) + (if s[|s| - 1] == value then [] else [s[|s| - 1]])
  }

  /** The new list: appended at the end when ticked, every occurrence removed when unticked. */
  function Toggled(selected: seq<string>, value: string, checked: bool): seq<string> {
    if checked then selected + [value] else Without(selected, value)
  }

  /** Whether each option is drawn ticked, in option order. */
  function Ticks(options: seq<Choice>, selected: seq<string>): (r: seq<bool>)
    ensures |r| == |options|
    ensures forall i :: 0 <= i < |options| ==> (r[i] <==> options[i].value in selected)
  {
    seq(|options|, i requires 0 <= i < |options| => options[i].value in selected)
  }

  /** Removing keeps the other entries in their order: the filter distributes over concatenation. */
  lemma {:induction false} WithoutConcat(a: seq<string>, b: seq<string>, value: string)
    ensures Without(a + b, value) == Without(a, value) + Without(b, value)
    decreases |b|
  {
    if b == [] {
      assert a + b == a;
    } else {
      var b' := b[..|b| - 1];
      assert (a + b)[..|a + b| - 1] == a + b';
      assert (a + b)[|a + b| - 1] == b[|b| - 1];
      WithoutConcat(a, b', value);
    }
  }

  /** Removing a value that is not there changes nothing. */
  lemma {:induction false} WithoutAbsent(s: seq<string>, value: string)
    requires value !in s
    ensures Without(s, value) == s
  {
    if s != [] {
      WithoutAbsent(s[..|s| - 1], value);
      assert s[..|s| - 1] + [s[|s| - 1]] == s;
    }
  }

  /** Every other value keeps its number of occurrences, and the removed
      value has none left. */
  lemma {:induction false} WithoutCounts(s: seq<string>, value: string)
    ensures multiset(Without(s, value))[value] == 0
    ensures forall x :: x != value ==> multiset(Without(s, value))[x] == multiset(s)[x]
  {
    if s != [] {
      WithoutCounts(s[..|s| - 1], value);
      assert s == s[..|s| - 1] + [s[|s| - 1]];
    }
  }

  /** Ticking appends at the end, keeping every earlier entry and
      allowing duplicates; unticking leaves no occurrence and touches no
      other value. */
  lemma ToggleEffect(selected: seq<string>, value: string)
    ensures |Toggled(selected, value, true)| == |selected| + 1
    ensures Toggled(selected, value, true)[..|selected|] == selected
    ensures Toggled(selected, value, true)[|selected|] == value
    ensures multiset(Toggled(selected, value, true))[value] == multiset(selected)[value] + 1
    ensures value !in Toggled(selected, value, false)
    ensures forall x :: x != value ==> multiset(Toggled(selected, value, false))[x] == multiset(selected)[x]
  {
    WithoutCounts(selected, value);
  }

  /** Ticking a value that was not ticked and then unticking it restores the list. */
  lemma CheckThenUncheck(selected: seq<string>, value: string)
    requires value !in selected
    ensures Toggled(Toggled(selected, value, true), value, false) == selected
  {
    WithoutConcat(selected, [value], value);
    WithoutAbsent(selected, value);
    assert Without([value], value) == [];
  }

  /** After a toggle the toggled option is drawn as asked and every other
      option is drawn as before. */
  lemma TicksAfterToggle(options: seq<Choice>, selected: seq<string>, value: string, checked: bool, i: nat)
    requires i < |options|
    ensures options[i].value == value ==> Ticks(options, Toggled(selected, value, checked))[i] == checked
    ensures options[i].value != value ==>
      Ticks(options, Toggled(selected, value, checked))[i] == Ticks(options, selected)[i]
  {
  }

  /** The list written into the store is an array of strings, which the
      declared value union does not include. */
  lemma WrittenValueOutsideDefaultTypes(selected: seq<string>, value: string, checked: bool)
    ensures !IsDefaultType(Strings(Toggled(selected, value, checked)))
  {
  }

  /** `handleChecked`: the new list replaces the field's value in the store. */
  method HandleChecked(w: Wizard, name: string, value: string, checked: bool)
    modifies w
    ensures w.Snapshot() == old(w.Snapshot()).(values := old(w.values)[name :=
      Strings(Toggled(SelectedValues(Lookup(old(w.values), name)), value, checked))])
  {
    var selected := SelectedValues(Lookup(w.values, name));
    w.SetValue(name, Strings(Toggled(selected, value, checked)));
  }
}
