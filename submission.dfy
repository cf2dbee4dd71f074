/** The submission payload: the ordered list of named parts that the submit
    handler appends to a multipart body, built from the language and the
    filtered form values. */
module Submission {
  import opened Wrappers
  import opened Decimal
  import opened Calendar
  import opened Types
  import opened FormValues

  datatype Body = Text(text: string) | Blob(file: FileItem)
  datatype Part = Part(name: string, body: Body)

  /** The multipart body under construction; `Append` adds a part at the end. */
  class FormData {
    var parts: seq<Part>

    constructor()
      ensures parts == []
    {
      parts := [];
    }

    method Append(name: string, body: Body)
      modifies this
      ensures parts == old(parts) + [Part(name, body)]
    {
      parts := parts + [Part(name, body)];
    }
  }

  /** The text a primitive is appended as: strings as they are, integers in
      decimal, booleans and null by their names. */
  function TextOf(v: Value): string
    requires v.Str? || v.Num? || v.Bool? || v.Null?
  {
    match v
    case Str(s) => s
    case Num(n) => IntText(n)
    case Bool(b) => if b then "true" else "false"
    case Null => "null"
  }

  /** One part per file, in order. */
  function FileParts(key: string, files: seq<FileItem>): (ps: seq<Part>)
    ensures |ps| == |files|
    ensures forall i :: 0 <= i < |files| ==> ps[i] == Part(key, Blob(files[i]))
  {
    if files == [] then [] else FileParts(key, files[..|files| - 1]) + [Part(key, Blob(files[|files| - 1]))]
  }

  /** One text part per array item, in order. */
  function ItemParts(key: string, items: seq<string>): (ps: seq<Part>)
    ensures |ps| == |items|
    ensures forall i :: 0 <= i < |items| ==> ps[i] == Part(key, Text(items[i]))
  {
    if items == [] then [] else ItemParts(key, items[..|items| - 1]) + [Part(key, Text(items[|items| - 1]))]
  }

  /** The parts one entry contributes, or None when serialising it throws:
      `toISOString` of an invalid date raises a RangeError. */
  function EntryParts(key: string, v: Value): (r: Option<seq<Part>>)
    ensures r.None? <==> v.DateV? && !IsValidDate(v.time)
    ensures r.Some? ==> forall i :: 0 <= i < |r.value| ==> r.value[i].name == key
  {
    match v
    case Files(files) => Some(FileParts(key, files))
    case DateV(t) =>
      if IsValidDate(t) then Some([Part(key, Text(BeforeT(IsoText(t.ms))))]) else None
    case Strings(items) => Some(ItemParts(key, items))
    case Undefined => Some([])
    case _ => Some([Part(key, Text(TextOf(v)))])
  }

  /** What each kind of value turns into: nothing for undefined, one part per
      file or item in order, the `YYYY-MM-DD` of the UTC date for a date, and
      exactly one text part for anything else. */
  lemma EntryPartsCases(key: string, v: Value)
    ensures v.Undefined? ==> EntryParts(key, v) == Some([])
    ensures v.Files? ==> (EntryParts(key, v).Some? && |EntryParts(key, v).value| == |v.files|
      && forall i :: 0 <= i < |v.files| ==> EntryParts(key, v).value[i].body == Blob(v.files[i]))
    ensures v.Strings? ==> (EntryParts(key, v).Some? && |EntryParts(key, v).value| == |v.items|
      && forall i :: 0 <= i < |v.items| ==> EntryParts(key, v).value[i].body == Text(v.items[i]))
    ensures v.DateV? && IsValidDate(v.time) ==>
      ValidCivil(UtcDate(v.time.ms)) && -999999 <= UtcDate(v.time.ms).year <= 999999
      && EntryParts(key, v) == Some([Part(key, Text(FullDateText(UtcDate(v.time.ms))))])
    ensures (v.Str? || v.Num? || v.Bool? || v.Null?) ==> EntryParts(key, v).Some? && |EntryParts(key, v).value| == 1
    ensures v.Str? ==> EntryParts(key, v) == Some([Part(key, Text(v.s))])
  {
    if v.DateV? && IsValidDate(v.time) {
      IsoTextDatePart(v.time.ms);
    }
  }

  /** The date part of a serialised date reads back as midnight UTC of the
      same calendar day. */
  lemma DatePartReadsBack(t: int)
    requires ValidTime(t)
    ensures ParseDate(BeforeT(IsoText(t))) == At(t / 86400000 * 86400000)
    ensures UtcDate(t / 86400000 * 86400000) == UtcDate(t)
  {
    var c := UtcDate(t);
    IsoTextDatePart(t);
    var fd := FullDateText(c);
    FullDateParses(c, "");
    assert fd + "" == fd;
    var n := t / 86400000;
    ParseDateOfFullDate(fd, c, |fd|);
    assert DayNumber(c.year, c.month, c.day) == n;
    assert -8640000000000000 <= n * 86400000 <= 8640000000000000 by {
      assert 8640000000000000 == 100000000 * 86400000;
      assert -100000000 <= n <= 100000000;
    }
    assert (n * 86400000) / 86400000 == n;
  }

  /** The language part, present only when a non-empty language is set. */
  function LanguageParts(lng: Option<string>): seq<Part> {
    if lng.Some? && lng.value != "" then [Part("language", Text(lng.value))] else []
  }

  /** The parts of the entries in order, or None when one of them throws. */
  function EntriesParts(entries: seq<(string, Value)>): (r: Option<seq<Part>>)
    ensures r.None? <==> exists i :: 0 <= i < |entries| && entries[i].1.DateV? && !IsValidDate(entries[i].1.time)
  {
    if entries == [] then Some([])
    else
      var last := entries[|entries| - 1];
      var init := entries[..|entries| - 1];
      var r := match (EntriesParts(init), EntryParts(last.0, last.1))
        case (Some(a), Some(b)) => Some(a + b)
        case _ => None;
      assert forall i :: 0 <= i < |init| ==> init[i] == entries[i];
      r
  }

  /** The whole payload: the language part first, then every entry's parts. */
  function Payload(lng: Option<string>, entries: seq<(string, Value)>): Option<seq<Part>> {
    match EntriesParts(entries)
    case Some(ps) => Some(LanguageParts(lng) + ps)
    case None => None
  }

  lemma EntriesPartsSnoc(entries: seq<(string, Value)>, k: nat)
    requires k < |entries|
    requires EntriesParts(entries[..k]).Some? && EntryParts(entries[k].0, entries[k].1).Some?
    ensures EntriesParts(entries[..k + 1])
      == Some(EntriesParts(entries[..k]).value + EntryParts(entries[k].0, entries[k].1).value)
  {
    assert entries[..k + 1][..k] == entries[..k];
  }

  lemma PayloadFails(lng: Option<string>, entries: seq<(string, Value)>, k: nat)
    requires k < |entries| && entries[k].1.DateV? && !IsValidDate(entries[k].1.time)
    ensures Payload(lng, entries).None?
  {
  }

  /** One more entry appended keeps the parts equal to the payload of the entries so far. */
  lemma SerialiseStep(lng: Option<string>, entries: seq<(string, Value)>, k: nat, before: seq<Part>, after: seq<Part>)
    requires k < |entries|
    requires EntriesParts(entries[..k]).Some? && before == LanguageParts(lng) + EntriesParts(entries[..k]).value
    requires EntryParts(entries[k].0, entries[k].1).Some?
    requires after == before + EntryParts(entries[k].0, entries[k].1).value
    ensures EntriesParts(entries[..k + 1]).Some?
    ensures after == LanguageParts(lng) + EntriesParts(entries[..k + 1]).value
  {
    EntriesPartsSnoc(entries, k);
  }

  /** Appends the parts of one entry. */
  method AppendEntry(fd: FormData, key: string, v: Value)
    requires EntryParts(key, v).Some?
    modifies fd
    ensures fd.parts == old(fd.parts) + EntryParts(key, v).value
  {
    match v {
      case Files(files) =>
        AppendFiles(fd, key, files);
      case DateV(t) =>
        fd.Append(key, Text(BeforeT(IsoText(t.ms))));
      case Strings(items) =>
        AppendItems(fd, key, items);
      case Undefined =>
      case _ =>
        fd.Append(key, Text(TextOf(v)));
    }
  }

  /** The inner loop for a file list: one blob part per file, in order. */
  method AppendFiles(fd: FormData, key: string, files: seq<FileItem>)
    modifies fd
    ensures fd.parts == old(fd.parts) + FileParts(key, files)
  {
    var base := fd.parts;
    var j := 0;
    while j < |files|
      invariant 0 <= j <= |files|
      invariant fd.parts == base + FileParts(key, files[..j])
    {
      assert files[..j + 1][..j] == files[..j];
      fd.Append(key, Blob(files[j]));
      j := j + 1;
    }
    assert files[..j] == files;
  }

  /** The inner loop for an array: one text part per item, in order. */
  method AppendItems(fd: FormData, key: string, items: seq<string>)
    modifies fd
    ensures fd.parts == old(fd.parts) + ItemParts(key, items)
  {
    var base := fd.parts;
    var j := 0;
    while j < |items|
      invariant 0 <= j <= |items|
      invariant fd.parts == base + ItemParts(key, items[..j])
    {
      assert items[..j + 1][..j] == items[..j];
      fd.Append(key, Text(items[j]));
      j := j + 1;
    }
    assert items[..j] == items;
  }

  /** The submit handler's loop over `Object.entries(values)`: None when the
      handler throws and nothing is sent. */
  method Serialise(lng: Option<string>, entries: seq<(string, Value)>) returns (r: Option<seq<Part>>)
    ensures r == Payload(lng, entries)
  {
    var fd := new FormData();
    if lng.Some? && lng.value != "" {
      fd.Append("language", Text(lng.value));
    }
    assert fd.parts == LanguageParts(lng) + [];
    assert entries[..0] == [];
    var k := 0;
    while k < |entries|
      invariant 0 <= k <= |entries|
      invariant EntriesParts(entries[..k]).Some?
      invariant fd.parts == LanguageParts(lng) + EntriesParts(entries[..k]).value
    {
      var key := entries[k].0;
      var v := entries[k].1;
      if v.DateV? && !IsValidDate(v.time) {
        PayloadFails(lng, entries, k);
        return None;
      }
      ghost var before := fd.parts;
      AppendEntry(fd, key, v);
      SerialiseStep(lng, entries, k, before, fd.parts);
      k := k + 1;
    }
    assert entries[..k] == entries;
    r := Some(fd.parts);
  }

  /** The language part comes first exactly when the language is set and not
      empty; otherwise the payload is the entries' parts alone. */
  lemma LanguageFirst(lng: Option<string>, entries: seq<(string, Value)>)
    requires Payload(lng, entries).Some?
    ensures lng.Some? && lng.value != "" ==>
      |Payload(lng, entries).value| > 0 && Payload(lng, entries).value[0] == Part("language", Text(lng.value))
    ensures !(lng.Some? && lng.value != "") ==> Payload(lng, entries) == EntriesParts(entries)
  {
    var ps := EntriesParts(entries).value;
    if !(lng.Some? && lng.value != "") {
      assert LanguageParts(lng) + ps == ps;
    }
  }

  /** The parts carrying a name, in order (`getAll`). */
  function Named(ps: seq<Part>, key: string): (r: seq<Part>)
    ensures |r| <= |ps|
  {
    if ps == [] then []
    else Named(ps[..|ps| - 1], key) + (if ps[|ps| - 1].name == key then [ps[|ps| - 1]] else [])
  }

  lemma {:induction false} NamedConcat(a: seq<Part>, b: seq<Part>, key: string)
    ensures Named(a + b, key) == Named(a, key) + Named(b, key)
    decreases |b|
  {
    if b != [] {
      var b' := b[..|b| - 1];
      assert (a + b)[..|a + b| - 1] == a + b';
      assert (a + b)[|a + b| - 1] == b[|b| - 1];
      NamedConcat(a, b', key);
      var tail := if b[|b| - 1].name == key then [b[|b| - 1]] else [];
      assert Named(a + b, key) == Named(a, key) + Named(b', key) + tail;
      assert Named(b, key) == Named(b', key) + tail;
    } else {
      assert a + b == a;
    }
  }

  lemma {:induction false} NamedAll(ps: seq<Part>, key: string)
    requires forall i :: 0 <= i < |ps| ==> ps[i].name == key
    ensures Named(ps, key) == ps
  {
    if ps != [] {
      NamedAll(ps[..|ps| - 1], key);
    }
  }

  lemma {:induction false} NamedNone(ps: seq<Part>, key: string)
    requires forall i :: 0 <= i < |ps| ==> ps[i].name != key
    ensures Named(ps, key) == []
  {
    if ps != [] {
      NamedNone(ps[..|ps| - 1], key);
    }
  }

  /** Every part of the entries' payload is named after some entry. */
  lemma {:induction false} EntriesPartsNames(entries: seq<(string, Value)>, key: string)
    requires EntriesParts(entries).Some?
    requires forall i :: 0 <= i < |entries| ==> entries[i].0 != key
    ensures Named(EntriesParts(entries).value, key) == []
  {
    if entries != [] {
      var last := entries[|entries| - 1];
      var init := entries[..|entries| - 1];
      EntriesPartsNames(init, key);
      NamedNone(EntryParts(last.0, last.1).value, key);
      NamedConcat(EntriesParts(init).value, EntryParts(last.0, last.1).value, key);
    }
  }

  /** With distinct keys, the parts under an entry's key are exactly the parts
      that entry's value serialises to: the receiver reads every value back
      whole and in order. */
  lemma {:induction false} PartsUnderKey(entries: seq<(string, Value)>, i: nat)
    requires i < |entries| && EntriesParts(entries).Some?
    requires forall a, b :: 0 <= a < b < |entries| ==> entries[a].0 != entries[b].0
    ensures EntryParts(entries[i].0, entries[i].1).Some?
    ensures Named(EntriesParts(entries).value, entries[i].0) == EntryParts(entries[i].0, entries[i].1).value
  {
    var last := entries[|entries| - 1];
    var init := entries[..|entries| - 1];
    var key := entries[i].0;
    assert EntriesParts(entries).value == EntriesParts(init).value + EntryParts(last.0, last.1).value;
    NamedConcat(EntriesParts(init).value, EntryParts(last.0, last.1).value, key);
    if i == |entries| - 1 {
      EntriesPartsNames(init, key);
      NamedAll(EntryParts(last.0, last.1).value, key);
    } else {
      PartsUnderKey(init, i);
      NamedNone(EntryParts(last.0, last.1).value, key);
    }
  }

  // ---------------------------------------------------------------------
  // The entries of the filtered values

  /** The names of the fields, in order. */
  function NameSeq(fs: seq<Field>): (r: seq<string>)
    ensures forall n :: n in r <==> n in Names(fs)
  {
    if fs == [] then []
    else
      assert Names(fs) == {fs[0].name} + Names(fs[1..]);
      [fs[0].name] + NameSeq(fs[1..])
  }

  /** The names in order of first occurrence: the key order of a record built
      by assigning the names one after another. */
  function FirstOccurrences(names: seq<string>): (r: seq<string>)
    ensures forall n :: n in r <==> n in names
    ensures forall a, b :: 0 <= a < b < |r| ==> r[a] != r[b]
  {
    if names == [] then []
    else
      var init := FirstOccurrences(names[..|names| - 1]);
      var last := names[|names| - 1];
      assert forall n :: n in names <==> n in names[..|names| - 1] || n == last;
      if last in init then init else init + [last]
  }

  /** `Object.entries(filterOptionalValues(schema, values))`. */
  function SubmittedEntries(schema: seq<Step>, values: Values): (es: seq<(string, Value)>)
    ensures forall a, b :: 0 <= a < b < |es| ==> es[a].0 != es[b].0
    ensures forall i :: 0 <= i < |es| ==> (es[i].0 in FilterOptionalValues(schema, values)
      && es[i].1 == FilterOptionalValues(schema, values)[es[i].0])
    ensures forall n :: n in Names(AllFields(schema)) ==> exists i :: 0 <= i < |es| && es[i].0 == n
  {
    var order := FirstOccurrences(NameSeq(AllFields(schema)));
    var filtered := FilterOptionalValues(schema, values);
    var es := seq(|order|, i requires 0 <= i < |order| => (order[i], filtered[order[i]]));
    assert forall i :: 0 <= i < |order| ==> es[i].0 == order[i];
    es
  }

  /** A field hidden by its dependency contributes no part at all, whatever
      it stored. */
  lemma HiddenFieldSendsNothing(lng: Option<string>, schema: seq<Step>, values: Values, f: Field)
    requires UniqueNames(AllFields(schema)) && f in AllFields(schema) && !Active(f, values)
    requires f.name != "language"
    requires Payload(lng, SubmittedEntries(schema, values)).Some?
    ensures Named(Payload(lng, SubmittedEntries(schema, values)).value, f.name) == []
  {
    var es := SubmittedEntries(schema, values);
    assert f.name in Names(AllFields(schema));
    var i :| 0 <= i < |es| && es[i].0 == f.name;
    FilterOptionalValuesAt(schema, values, f);
    UndefinedSendsNothing(lng, es, i);
  }

  /** An entry holding undefined, under a key other than "language", puts
      no part under its key. */
  lemma {:induction false} UndefinedSendsNothing(lng: Option<string>, es: seq<(string, Value)>, i: nat)
    requires i < |es| && es[i].1 == Undefined && es[i].0 != "language"
    requires forall a, b :: 0 <= a < b < |es| ==> es[a].0 != es[b].0
    requires Payload(lng, es).Some?
    ensures Named(Payload(lng, es).value, es[i].0) == []
  {
    PartsUnderKey(es, i);
    var ps := EntriesParts(es).value;
    NamedNone(LanguageParts(lng), es[i].0);
    NamedConcat(LanguageParts(lng), ps, es[i].0);
  }
}
