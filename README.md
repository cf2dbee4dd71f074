# Creator application form — a Dafny model

The repository is a React application form for content creators. An
applicant picks a language, then walks through a wizard of steps, each
holding fields such as texts, selects, switches, a multi-checkbox list, a
birthdate picker and file uploads. A field may depend on another field and
is then shown, validated and sent only while its controller holds the
field's condition. On the last step the filtered values are posted as a
multipart body. A 2xx answer shows a success screen and resets the form.
Beside the wizard sit a JSON Schema of the same form and a small
stand-alone multi-step page.

This project models that logic layer in Dafny and proves what it does:

- `Types` holds the data model: the value union, the rule shape, the ten
  field variants, the step and `hasPlaceholder`.
- `FormValues` holds the dependency-aware folds over the flat
  name-to-value store: `filterOptionalValues`, `getDefaultValues`,
  `getValidationSchema` and which fields a step displays.
- `Wizard` holds the wizard state machine (language, step, submitted flag,
  values) as a class whose methods are specified by pure transition
  functions.
- `Submission` holds the payload serialiser: a `FormData` class and a loop
  method, proved equal to a payload function.
- `BaseField` holds `isRequired` and the label's required marker.
- `MultiCheckbox` holds the tick/untick list and its write into the store.
- `Birthdate` holds the three-select birthdate picker: year and day
  options, the range checks, the clearing cascade and the stored date.
- `Schema` and `Regex` hold the JSON Schema of the form, with the draft-07
  keywords it uses and the two regular expressions written out as terms.
- `MultiStepForm` holds the bounded step counter of the stand-alone page.
- `Calendar` and `Decimal` hold the parts of JavaScript's `Date` and number
  formatting that the form relies on.

Dates are integers: milliseconds since 1970-01-01 UTC, or calendar triples.
`Date.UTC`'s mapping of years 0-99 to 1900-1999 and its roll-over of
out-of-range days are written out. The rule check of the form library and
the server's answer are inputs. The clock and the local time zone offset
are parameters.

Some behaviour follows the code where a description of the form reads
differently:

- `!dependsOn` is a truthiness test, so an empty controller name means "no
  dependency".
- A stored `Date`, `FileList` or array is never strictly equal to a
  condition.
- The day options come from `getDaysInMonth`, which reads the local time
  zone, not UTC.
- `minimum` and `maximum` on the birthdate hold strings. Under draft-07
  they constrain numbers only, so they accept every date.
- Declared-property checks for `required` and for `dependencies` need no
  lemma. The property names form a closed datatype, and `properties` is a
  total map over it.

## Model

| member | source | states |
|---|---|---|
| Types.PlaceholderVariants | src/types.tsx:93-95 | only the text, phone, select and combobox variants can carry a placeholder, and for those the check holds exactly when one is set |
| Types.PlaceholderGuardAdmitsOtherVariants | src/types.tsx:93-95 | the guard declared as narrowing to the text variant also admits a select field with a placeholder |
| MultiCheckbox.WrittenValueOutsideDefaultTypes | src/types.tsx:4 | the string list the multi-checkbox writes lies outside the declared value union |
| FormValues.FilterOptionalValues | src/App.tsx:26-40 | the result has exactly one key per schema field name; stored keys of no field are dropped |
| FormValues.FilterOptionalValuesAt | src/App.tsx:31-34 | a field whose controller does not strictly equal its condition is sent as undefined whatever it stored; every other field keeps its stored value |
| FormValues.ValidationSchema | src/App.tsx:57-68 | one rule per schema field name |
| FormValues.DisplayedFields | src/App.tsx:192-199 | a field of the step is rendered exactly when it passes the dependency test, and no extra fields appear |
| FormValues.DependencyAgreement | src/App.tsx:57-68 | a field gets its own rule iff it is displayed iff its submitted value is not forced to undefined (the same test decides lines 31 and 195) |
| FormValues.Assign | src/App.tsx:43-53 | the fold's keys are the accumulator's keys plus the field names |
| FormValues.AssignOutside | src/App.tsx:43-53 | a name no field carries keeps the accumulator's entry |
| FormValues.AssignLast | src/App.tsx:43-53 | the last field with a name decides that name's entry |
| FormValues.AssignUnique | src/App.tsx:43-53 | with unique names each field's own entry is stored |
| FormValues.AllFields | src/App.tsx:27-28 | every field of every step is visited |
| FormValues.StepErrors | src/App.tsx:108 | only names of the validated fields are reported |
| FormValues.StepValidIff | src/App.tsx:108 | a step passes exactly when each of its displayed fields satisfies its own rule; hidden fields and other steps play no part |
| FormValues.StepErrorsEmptyIff | src/App.tsx:108 | no errors iff every active field satisfies its rule, given each field's effective rule |
| FormValues.DefaultValues | src/App.tsx:42-55 | one initial value per schema field name |
| FormValues.DefaultValuesAt | src/App.tsx:45-49 | a stored value that is not nullish wins, so stored false, 0 and "" survive; a non-empty birthdate text becomes a date; nullish stored value and default give undefined; a nullish stored value with a default gives the default, a non-empty birthdate default text read as a date |
| FormValues.DefaultValuesOfEmptyStore | src/App.tsx:45 | with an empty store every field starts at its default, which is what Reset installs |
| FormValues.BirthdateRehydrates | src/App.tsx:47-49 | a birthdate stored as the ISO text of an instant is read back as that instant |
| Wizard.Wizard.constructor | src/App.tsx:72-87 | the wizard mounts with the persisted language, step and flag and with the default values of the stored values; its step lies within the steps exactly when the persisted one does |
| Wizard.Wizard.ChooseLanguage | src/App.tsx:164-168 | the language picker sets only the language |
| Wizard.Wizard.ChangeLanguage | src/App.tsx:245 | the language link clears only the language |
| Wizard.Wizard.SetValue | src/components/fields/MultiCheckboxField.tsx:18 | a widget write replaces one name's value and nothing else |
| Wizard.Wizard.Next | src/App.tsx:105-119 | the new state and outcome are those of the transition function, and the step stays in range |
| Wizard.Wizard.Previous | src/App.tsx:121-123 | past the first step, where the button is shown, the step goes down by one and nothing else changes |
| Wizard.Wizard.Reset | src/App.tsx:246-249 | the form returns to the defaults of an empty store and step 0 |
| Wizard.NextAdvancesIffStepValid | src/App.tsx:108-112 | "Next" stays within the steps, moves at most one step, and advances exactly when the step is not the last and every displayed field satisfies its rule |
| Wizard.NextStepMoves | src/App.tsx:108-112 | the new step is the old one plus one when there are no errors and it is not the last, else unchanged |
| Wizard.RejectedChangesNothing | src/App.tsx:116-118 | an invalid step leaves the state unchanged and reports only that step's fields |
| Wizard.SubmitOnLastStep | src/App.tsx:113-161 | only a step without errors that is the last posts, and such a step always posts unless the payload cannot be built (then it fails and changes nothing); it posts the payload of the filtered values without moving the step; `send` is set and the values reset exactly on a 2xx status; anything else changes nothing |
| Wizard.ResetRestoresDefaults | src/App.tsx:246-249 | Reset puts each field at its schema default and step 0, keeping language and `send` |
| Wizard.ResetThenSubmit | src/App.tsx:155-158 | a successful submission after a Reset stores the empty-store defaults |
| Wizard.LanguageRoundTrip | src/App.tsx:164-179 | without a language the gate shows even over the success screen; choosing a language again returns to the same screen with all progress kept |
| Wizard.NextThenPrevious | src/App.tsx:111-123 | after advancing, "Previous" is shown and returns to the same state; the button read "next" |
| Submission.FormData.constructor | src/App.tsx:127 | a new body has no parts |
| Submission.FormData.Append | src/App.tsx:129 | a part is added at the end |
| Submission.FileParts | src/App.tsx:133-136 | one blob part per file, in order |
| Submission.ItemParts | src/App.tsx:139-142 | one text part per array item, in order |
| Submission.EntryParts | src/App.tsx:132-147 | serialising an entry throws exactly for an invalid date; every part carries the entry's key |
| Submission.EntryPartsCases | src/App.tsx:132-147 | undefined gives no part; files and items give one part each in order; a date gives the `YYYY-MM-DD` of its UTC date; any other value gives exactly one part |
| Submission.DatePartReadsBack | src/App.tsx:138 | the date part reads back as UTC midnight of the same UTC day |
| Submission.EntriesParts | src/App.tsx:132-148 | the loop throws exactly when some entry is an invalid date |
| Submission.PayloadFails | src/App.tsx:138 | an invalid date anywhere means nothing is posted |
| Submission.SerialiseStep | src/App.tsx:132-148 | appending one more entry's parts keeps the body equal to the payload so far |
| Submission.AppendEntry | src/App.tsx:133-147 | the body grows by exactly that entry's parts |
| Submission.AppendFiles | src/App.tsx:134-136 | the body grows by one blob part per file, in order |
| Submission.AppendItems | src/App.tsx:140-142 | the body grows by one text part per item, in order |
| Submission.Serialise | src/App.tsx:126-148 | the loop's result is the payload function: the language part, then each entry's parts, or nothing when it throws |
| Submission.LanguageFirst | src/App.tsx:128-130 | the language part comes first exactly when a non-empty language is set |
| Submission.NamedConcat | src/App.tsx:132-148 | reading back the parts under a name distributes over concatenation |
| Submission.NamedAll | src/App.tsx:132-148 | parts that all carry the name are read back whole |
| Submission.NamedNone | src/App.tsx:132-148 | parts that carry other names contribute nothing |
| Submission.EntriesPartsNames | src/App.tsx:132-148 | no part is named after a key that no entry has |
| Submission.PartsUnderKey | src/App.tsx:132-148 | with distinct keys, the parts under an entry's key are exactly that entry's parts, in order |
| Submission.NameSeq | src/App.tsx:26-40 | the field names in order, as a set equal to the names |
| Submission.FirstOccurrences | src/App.tsx:26-40 | the key order of the filtered record: each name once |
| Submission.SubmittedEntries | src/App.tsx:132 | the entries of the filtered record: distinct keys, each with its filtered value, every field name present |
| Submission.HiddenFieldSendsNothing | src/App.tsx:144-146 | a field hidden by its dependency puts no part in the body |
| Submission.UndefinedSendsNothing | src/App.tsx:144-146 | an undefined entry puts no part under its key |
| BaseField.RequiredIffNoLeafEscapes | src/components/fields/BaseField.tsx:24-38 | a rule is required exactly when no rule reached through its unions is optional, nullable or boolean; other literals and rules count as required |
| BaseField.AllRequiredIffNoLeafEscapes | src/components/fields/BaseField.tsx:33-35 | every alternative is required iff no leaf of any alternative escapes |
| BaseField.UnionCases | src/components/fields/BaseField.tsx:33-35 | an empty union is required; a two-way union is required iff both alternatives are |
| BaseField.Leaves | src/components/fields/BaseField.tsx:33-35 | looking through unions yields no union |
| BaseField.NoneEscapeConcat | src/components/fields/BaseField.tsx:34 | `every` over a concatenation is the conjunction of the two |
| BaseField.RenderedLabel | src/components/fields/BaseField.tsx:50-54 | the label starts with the label text, contains the asterisk exactly when the rule is required, and ends in a non-breaking space and a colon |
| MultiCheckbox.SelectedValues | src/components/fields/MultiCheckboxField.tsx:11 | the stored list when the value is an array, otherwise empty |
| MultiCheckbox.Without | src/components/fields/MultiCheckboxField.tsx:16 | the result holds exactly the other values and none of the removed one |
| MultiCheckbox.Ticks | src/components/fields/MultiCheckboxField.tsx:26-31 | option `i` is drawn ticked iff the list contains its value |
| MultiCheckbox.WithoutConcat | src/components/fields/MultiCheckboxField.tsx:16 | removal keeps the other entries in order |
| MultiCheckbox.WithoutAbsent | src/components/fields/MultiCheckboxField.tsx:16 | removing a value that is not there changes nothing |
| MultiCheckbox.WithoutCounts | src/components/fields/MultiCheckboxField.tsx:16 | every other value keeps its count; the removed value has none |
| MultiCheckbox.ToggleEffect | src/components/fields/MultiCheckboxField.tsx:14-16 | ticking appends at the end with no deduplication; unticking removes every occurrence and no other value |
| MultiCheckbox.CheckThenUncheck | src/components/fields/MultiCheckboxField.tsx:14-16 | ticking an absent value and unticking it restores the list |
| MultiCheckbox.TicksAfterToggle | src/components/fields/MultiCheckboxField.tsx:13-31 | after a toggle the toggled option is drawn as asked and every other as before |
| MultiCheckbox.HandleChecked | src/components/fields/MultiCheckboxField.tsx:13-19 | the new list replaces the field's value in the store and nothing else changes |
| Birthdate.DigitRun | src/components/fields/BirthdateField.tsx:57 | the length of the leading digit run |
| Birthdate.ParseInt | src/components/fields/BirthdateField.tsx:76-78 | on texts without leading white space or a `0x` prefix, `parseInt` is NaN exactly when no digit follows the sign; unsigned texts give non-negative numbers |
| Birthdate.Unsigned | src/components/fields/BirthdateField.tsx:57 | the text without its sign |
| Birthdate.ParseIntText | src/components/fields/BirthdateField.tsx:126 | the decimal text of an integer parses back to it |
| Birthdate.IntTextInjective | src/components/fields/BirthdateField.tsx:126 | distinct years have distinct option texts |
| Birthdate.Or | src/components/fields/BirthdateField.tsx:57-63 | the text when it is non-empty, else the fallback |
| Birthdate.DateUtc | src/components/fields/BirthdateField.tsx:93 | NaN arguments give an Invalid Date; a valid result is a UTC midnight |
| Birthdate.DateUtcOfRealDate | src/components/fields/BirthdateField.tsx:75-80 | a real date gives its UTC midnight, which reads back as that date after the 0-99 year mapping |
| Birthdate.AdmitsInclusive | src/components/fields/BirthdateField.tsx:92-97 | the range check is inclusive at both ends; an invalid date or bound excludes nothing |
| Birthdate.YearOf | src/components/fields/BirthdateField.tsx:15-16 | a bound's UTC year exists exactly for a valid date |
| Birthdate.YearsDown | src/components/fields/BirthdateField.tsx:126 | `maxYear - minYear + 1` options, none for an empty span |
| Birthdate.YearsDownParse | src/components/fields/BirthdateField.tsx:126 | option `i` is the text of `maxYear - i` |
| Birthdate.YearsDownSpan | src/components/fields/BirthdateField.tsx:126 | a year is offered exactly when it lies in the span |
| Birthdate.YearOptionsDefault | src/components/fields/BirthdateField.tsx:14-16 | without bounds: 101 options, from the current year down to a hundred years before |
| Birthdate.MonthOptions | src/components/fields/BirthdateField.tsx:141-142 | twelve options reading 1 to 12 |
| Birthdate.LocalDaysInMonth | src/components/fields/BirthdateField.tsx:88 | a month length of 28 to 31 days, or NaN |
| Birthdate.DayCountAt | src/components/fields/BirthdateField.tsx:87-90 | between 0 and 31 day options |
| Birthdate.DayOptionsAt | src/components/fields/BirthdateField.tsx:87-90 | none before a year and a month are picked; otherwise "1" to the day count |
| Birthdate.DayOptionsUtc | src/components/fields/BirthdateField.tsx:87-90 | read in UTC, the options are exactly the days of the picked month |
| Birthdate.LocalDayCountAhead | src/components/fields/BirthdateField.tsx:88 | at or east of UTC the day count is the month's own |
| Birthdate.LocalDayCountBehind | src/components/fields/BirthdateField.tsx:88 | west of UTC the day count is that of the previous month |
| Birthdate.DayCountOfFirst | src/components/fields/BirthdateField.tsx:88 | the day count is the length of the month the first falls in locally |
| Birthdate.DateUtcOfParsed | src/components/fields/BirthdateField.tsx:93 | selects reading as a year, a month and a day of at most 31 give that UTC midnight |
| Birthdate.DayCountOfDate | src/components/fields/BirthdateField.tsx:88 | the day count of a valid first-of-month is its local month's length |
| Birthdate.LocalDaysOfValidTime | src/components/fields/BirthdateField.tsx:88 | `getDaysInMonth` of a valid date is the length of its local month |
| Birthdate.LocalDayOptionsMissDays | src/components/fields/BirthdateField.tsx:87-90 | five hours west of UTC March offers at most 29 days |
| Birthdate.IsMonthSelectable | src/components/fields/BirthdateField.tsx:104-112 | a month is selectable iff some day from 1 to its day count is in range; for a picked year and month, iff some real day of that month is in range |
| Birthdate.AnyDayInRange | src/components/fields/BirthdateField.tsx:106-111 | the loop answers true iff some day from 1 to `n` is in range |
| Birthdate.DaySelectableIffInRange | src/components/fields/BirthdateField.tsx:99-102 | a day of a picked month is selectable iff its date is in range |
| Birthdate.DaySelectableOfParsed | src/components/fields/BirthdateField.tsx:99-102 | the same for any selects that read as a real date |
| Birthdate.MidnightOfMappedYear | src/components/fields/BirthdateField.tsx:100-101 | mapping a year twice is mapping it once |
| Birthdate.CascadeAsWrittenEffect | src/components/fields/BirthdateField.tsx:55-67 | a year clears month and day iff `(year, month or 1, day or 1)` is out of range; a month clears the day iff `(year or 0, month, day or 1)` is; a day changes only the day |
| Birthdate.CascadeKeepsOverflowDay | src/components/fields/BirthdateField.tsx:61-81 | January 31st then February keeps day 31, which is stored as a day in March; the selects re-seeded from that stored value show the March date |
| Birthdate.UnboundedPickKeeps | src/components/fields/BirthdateField.tsx:61-65 | without bounds a picked month clears nothing |
| Birthdate.FebruaryThirtyFirst | src/components/fields/BirthdateField.tsx:74-81 | February 31st is stored as the matching day in March |
| Birthdate.FebruaryRollsOver | src/components/fields/BirthdateField.tsx:75-79 | `Date.UTC` of February 31st equals March 2nd or 3rd |
| Birthdate.ClearUnfitDay | src/components/fields/BirthdateField.tsx:61-65 | year and month are kept; the day is kept or cleared |
| Birthdate.CascadeKeepsRealDates | src/components/fields/BirthdateField.tsx:55-67 | after the corrected cascade a complete selection always names a real date; it differs from the code only on such selections |
| Birthdate.Assemble | src/components/fields/BirthdateField.tsx:74-84 | null exactly when a part is empty, otherwise the UTC midnight of the three parts |
| Birthdate.AssembleFallsOnPickedDate | src/components/fields/BirthdateField.tsx:74-81 | the stored date of a real selection falls on that date in UTC |
| Birthdate.OfferedDayFits | src/components/fields/BirthdateField.tsx:163-167 | picking an offered day gives a real date |
| Birthdate.AssembleThenInitial | src/components/fields/BirthdateField.tsx:30-32 | storing a picked date and mounting again shows the same selects |
| Birthdate.AssembleOfText | src/components/fields/BirthdateField.tsx:74-81 | the stored value of a real selection is its UTC midnight |
| Birthdate.InitialOfMidnight | src/components/fields/BirthdateField.tsx:30-32 | mounting on a UTC midnight shows its UTC year, one-based month and day |
| Birthdate.StoredTextSelection | src/components/fields/BirthdateField.tsx:18-32 | a stored date text seeds the same selects as its date |
| Birthdate.StoredText | src/components/fields/BirthdateField.tsx:20 | a truthy date text is read as its date |
| Birthdate.NextSelection | src/components/fields/BirthdateField.tsx:50-72 | the locals after a pick are the cascade as written: a year clears month and day, and a month clears the day, exactly when the date with missing parts read as 1 (a missing year as 0) is out of range |
| Birthdate.BirthdatePicker.constructor | src/components/fields/BirthdateField.tsx:30-36 | the selects are seeded from the stored value |
| Birthdate.BirthdatePicker.Resync | src/components/fields/BirthdateField.tsx:38-48 | the selects are re-seeded from the stored value, or emptied |
| Birthdate.BirthdatePicker.Rehydrate | src/components/fields/BirthdateField.tsx:23-28 | a truthy stored value that is not a date is replaced by its date; otherwise nothing changes |
| Birthdate.BirthdatePicker.HandleDateChange | src/components/fields/BirthdateField.tsx:50-85 | the selects follow the cascade as written, and the store gets the assembled date (UTC midnight of the three parts) or null when a part is missing; nothing else in the store changes |
| Birthdate.BirthdatePicker.Pick | src/components/fields/BirthdateField.tsx:50-72 | the selects follow the cascade as written |
| Birthdate.BirthdatePicker.SetSelects | src/components/fields/BirthdateField.tsx:70-72 | the three selects take the given values |
| Regex.PhonePatternIff | src/schema.tsx:64 | `^[+]{1}[0-9]{10,15}$` accepts exactly a '+' followed by 10 to 15 ASCII digits |
| Regex.PhoneMatches | src/schema.tsx:64 | a phone number matches the whole text |
| Regex.PhoneMatchIsPhoneNumber | src/schema.tsx:64 | any match means the text is a phone number |
| Regex.UsernamePatternIff | src/schema.tsx:160 | the username pattern accepts exactly 5 to 24 letters, digits, '-', '.' or '_' with no two separators side by side |
| Regex.UsernameMatches | src/schema.tsx:160 | a username matches the whole text |
| Regex.UsernameMatchIsUsername | src/schema.tsx:160 | any match means the text is a username |
| Regex.ClassesAgree | src/schema.tsx:160 | the class `[a-zA-Z0-9-._]` is the username characters, `[-._]` the separators |
| Regex.ConcatIntro | src/schema.tsx:160 | adjacent matches of the parts match the concatenation |
| Regex.ConcatElim | src/schema.tsx:160 | a match of a concatenation splits into matches of its parts |
| Schema.FormSchema | src/schema.tsx:14-255 | every dependency is controlled by a boolean property, and neither side of a dependency is required |
| Schema.ShortTextLengths | src/schema.tsx:19-52 | `firstname`, `lastname` and `city` take exactly strings of 1 to 64 characters |
| Schema.LongTextLengths | src/schema.tsx:100-198 | `hardware` takes at least one character, `applicant_notes` at most 5000 |
| Schema.WhatsappIsPhoneNumber | src/schema.tsx:61-65 | `whatsapp` takes exactly the phone numbers |
| Schema.UsernameShape | src/schema.tsx:157-161 | `username` takes exactly the usernames |
| Schema.ChoicesTakeKeys | src/schema.tsx:39-122 | each select list takes exactly a key of its enumeration |
| Schema.ContentListsDistinct | src/schema.tsx:123-144 | `planned_content` takes at least 3 distinct content kinds, `existing_content` at least 2 |
| Schema.PhotosCount | src/schema.tsx:184-193 | `photos` takes 5 to 10 data URLs |
| Schema.AmountsNonNegative | src/schema.tsx:172-181 | `follower_count` and `monthly_income` take exactly numbers of at least 0 |
| Schema.TermsOnlyTrue | src/schema.tsx:199-203 | `terms_accepted` takes `true` and nothing else |
| Schema.BirthdateLimitsIgnored | src/schema.tsx:32-38 | the birthdate's text limits do not constrain a string, so any valid date is accepted |
| Schema.ValidInstanceAcceptsTerms | src/schema.tsx:199-209 | a valid instance has every required property and `terms_accepted` is true |
| Schema.DependentNeedsController | src/schema.tsx:210-253 | when a dependent and its controller are both present, a valid instance has the controller true |
| Schema.AbsentControllersPass | src/schema.tsx:210-253 | without their controllers the dependencies never fail |
| Schema.SubYears | src/schema.tsx:36-37 | `subYears` keeps the month and caps the day at the month's length |
| Schema.DayNumberBound | src/schema.tsx:36-37 | dates within 200000 years of 1970 lie within 80000000 days of it |
| Schema.YearsBefore | src/schema.tsx:36-37 | the instant is the local date `years` earlier at the same local time of day |
| Schema.BirthdateLimit | src/schema.tsx:36-37 | the limit as written is the `YYYY-MM-DD` of the UTC date of that instant |
| Schema.LocalBirthdateLimit | src/schema.tsx:36-37 | the intended limit is the `YYYY-MM-DD` of the local date `years` earlier |
| Schema.FormSchemaAt | src/schema.tsx:36-37 | the birthdate limits are the UTC dates of the instants 40 and 18 local calendar years before now, as `YYYY-MM-DD` texts |
| Schema.SubYearsOrdered | src/schema.tsx:36-37 | going back further gives an earlier date, by at least 334 days a year |
| Schema.ParseLimitText | src/schema.tsx:36-37 | a full-date limit parses to UTC midnight of its date |
| Schema.LocalLimitsOrdered | src/schema.tsx:36-37 | the older intended limit is a strictly earlier date |
| Schema.BirthdateLimitsOrdered | src/schema.tsx:36-37 | the minimum birthdate is strictly before the maximum |
| Schema.AsWrittenLimitsOrdered | src/schema.tsx:36-37 | the limits as written keep the same order |
| Schema.AsWrittenLimitParses | src/schema.tsx:36-37 | the limit as written parses to UTC midnight of the instant's UTC day |
| Schema.LimitAgreesWithinDay | src/schema.tsx:36-37 | when the shift to UTC stays within the day, the limit as written is the intended one |
| Schema.LimitDiffersAcrossMidnight | src/schema.tsx:36-37 | when the shift to UTC crosses midnight, the limit as written is another day |
| MultiStepForm.NextOf | src/pages/MultiStepForm.tsx:15-17 | one step forward exactly when before the last step, otherwise unchanged |
| MultiStepForm.PrevOf | src/pages/MultiStepForm.tsx:20-22 | one step back exactly when past the first step, otherwise unchanged |
| MultiStepForm.MovesStayInRange | src/pages/MultiStepForm.tsx:12-22 | from any step within the steps, every sequence of moves stays within them |
| MultiStepForm.NextPressesReach | src/pages/MultiStepForm.tsx:15-17 | `n` presses of "Next" reach step `n` or the last step |
| MultiStepForm.Render | src/pages/MultiStepForm.tsx:28-59 | the step is shown exactly when it exists and has a non-empty title and description, with those texts; "Previous" is disabled at step 0 and "Next" at the last step |
| MultiStepForm.DisabledExactlyWhenStuck | src/pages/MultiStepForm.tsx:15-55 | each button is disabled exactly where pressing it would change nothing |
| MultiStepForm.StepForm.constructor | src/pages/MultiStepForm.tsx:12 | the counter starts at 0, within the steps |
| MultiStepForm.StepForm.NextStep | src/pages/MultiStepForm.tsx:15-17 | the counter follows `NextOf` and stays within the steps |
| MultiStepForm.StepForm.PrevStep | src/pages/MultiStepForm.tsx:20-22 | the counter follows `PrevOf` and stays within the steps |
| MultiStepForm.StepForm.Page | src/pages/MultiStepForm.tsx:28-59 | on a counter within the steps, the step is shown exactly when there are steps and the current one has a non-empty title and description, with those texts; "Previous" is disabled exactly at step 0 and "Next" exactly at the last step |
| Calendar.CivilRoundTrip | src/components/fields/BirthdateField.tsx:30-32 | a date's day number converts back to the same date (the `getUTC…` readings) |
| Calendar.DayNumberInjective | src/components/fields/BirthdateField.tsx:93 | distinct dates have distinct UTC midnights |
| Calendar.UtcYear | src/components/fields/BirthdateField.tsx:75-79 | `Date.UTC` reads years 0 to 99 as 1900 to 1999 and leaves other years alone |
| Calendar.IsoTextRoundTrip | src/App.tsx:47-49 | the `toISOString` text of a valid instant parses back to it |
| Calendar.FullDateParses | src/App.tsx:138 | a `YYYY-MM-DD` text parses back to its date |
| Decimal.NatTextRoundTrip | src/components/fields/BirthdateField.tsx:89 | a day's decimal text reads back as that number |
| Decimal.NatTextInjective | src/components/fields/BirthdateField.tsx:89 | distinct numbers have distinct texts |

## Left out

- Floating point: numbers are integers. `parseInt` of a text with a fraction reads only the integer part. Non-integral amounts are not modelled.
- Translation (`t`, `changeLanguage`), titles, `enumNames` and locale month names are presentation. They are not modelled.
- Persistence in local storage is modelled as the initial language, step, flag and values passed to the wizard's constructor. Effect timing and re-render order are not modelled.
- The network: `fetch` and the base URL become a `Response` parameter (a status or a network error). The browser's multipart encoding is not modelled; the body is an ordered list of named parts.
- The form library's rule check (zod) is an abstract `accepts` predicate. Only the shape that `isRequired` inspects is modelled as a datatype.
- `getUiSchema` and every presentation component (text, select, radio, checkbox, switch, combobox, phone and file fields, the language picker) are not modelled: their behaviour lives in third-party widgets.
- Logging (`console.error` in the submit handler, `console.log` in the stand-alone page) is left out.
- The stand-alone page's JSON-schema form component (rjsf with ajv) is left out. Only the step counter, the invalid-step guard and the two buttons are modelled.
- The enum key lists (src/enums.tsx is not part of this model), the Instagram and Telegram patterns and the `format` checks (`date`, `email`, `data-url`) come in as a `Catalogue` parameter of the schema.
- Whether a strict validator refuses the schema itself because the birthdate's `minimum` and `maximum` hold strings is not modelled. Draft-07's meta-schema expects numbers there; the model follows the validation rules, under which they constrain nothing.
- The wizard imports `createSchema` from the schema file, which exports `getJsonSchema` instead. The two are modelled separately: the wizard over any list of steps, the schema as a constant.
- The local time zone is a constant offset of less than a day. Daylight-saving changes are not modelled.
- The clock is a parameter. Schema.YearsBefore requires the dates involved to lie within 200000 years of 1970, so the `RangeError` that `toISOString` raises beyond the time range is not modelled there.
- `new Date(text)` recognises only the two forms the form produces: a bare `YYYY-MM-DD` and the full `toISOString` form. Other texts read as an Invalid Date.
- Wizard.Wizard.Previous: requires the step to be past the first. The button that calls it is hidden at step 0, so the negative step it would produce there is not modelled.
- Birthdate.IsMonthSelectable: reads the day count in UTC, the corrected reading of the second finding below; the as-written local reading is `Birthdate.DayCountAt`.
- Wizard.Wizard.constructor: a persisted step outside the steps mounts a wizard that is not `Valid()`. The source then throws when it renders the form screen (`schema[step].title`, src/App.tsx:186) and when it submits (src/App.tsx:108); the model does not continue from that state, since every operation past mounting except Reset requires `Valid()`.
- Submission.FirstOccurrences: keeps names in first-occurrence order. `Object.entries` lists integer-like keys first, in ascending order; this form's field names are not integer-like, so that ordering is not modelled.
- Birthdate.ParseInt: does not skip leading white space, and does not read a `0x` or `0X` prefix as hexadecimal, which `parseInt` without a radix (src/components/fields/BirthdateField.tsx:57, 63 and 100) does. The texts it is given are select option values (decimal numbers without white space), "NaN" or empty, so neither case arises in the picker.
- Types.HasPlaceholder: a descriptor whose `placeholder` key is present but `undefined` passes `'placeholder' in field`; the model's optional field cannot tell that from a missing key, so it reads as missing.
- Wizard.Wizard.Reset: requires at least one step, since the form cannot render without one.

## Findings

| source | as written | input that shows it | evidently intended | confidence | as-written member | corrected member |
|---|---|---|---|---|---|---|
| src/components/fields/BirthdateField.tsx:61-65 | picking a month keeps the picked day whenever `(year, month, day)` is in range, even when the day does not exist in that month | no bounds, pick 2001, January, 31, then February: the handler writes 2001-03-03 into the store, and the effect that watches the stored value then re-seeds the selects to 2001, March, 3 | a day that does not exist in the new month is cleared | not executed | Birthdate.CascadeKeepsOverflowDay | Birthdate.CascadeKeepsRealDates |
| src/components/fields/BirthdateField.tsx:87-90 | the day count (here and in `isMonthSelectable`, lines 104-106) uses `getDaysInMonth`, which reads the UTC midnight of the first in local time | five hours west of UTC (New York in winter), March offers at most 29 days in every year: the length of February | the number of days of the picked month, read in UTC like the rest of the picker | not executed | Birthdate.LocalDayOptionsMissDays | Birthdate.DayOptionsUtc |
| src/schema.tsx:36-37 | the birthdate limits are the UTC date of "now minus N years" | one hour east of UTC at 00:30 local time, the limit is the day before the local date N years ago | the local date N years ago | not executed | Schema.LimitDiffersAcrossMidnight | Schema.LocalLimitsOrdered |
