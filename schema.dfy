/** The JSON Schema of the application form: each property with the
    draft-07 validation keywords it carries, the `required` list and the
    `dependencies`, together with what those keywords accept under JSON
    Schema Validation draft-07. The enum key lists, the two contact patterns
    and the `format` checks are defined outside this schema and come in as a
    catalogue. */
module Schema {
  import opened Wrappers
  import opened Calendar
  import opened Regex

  /** The instance values the form produces (integral numbers only). */
  datatype Json = JStr(s: string) | JNum(n: int) | JBool(b: bool) | JArr(items: seq<Json>) | JNull

  datatype JsonType = StringType | NumberType | BooleanType | ArrayType

  /** The enumerations whose keys the `enum` keywords list. */
  datatype EnumSet = CountryCodes | Experiences | EnglishLevels | TimesPerDay | ContentKinds

  datatype Contact = Instagram | Telegram

  datatype Pattern = Phone | Username | ContactPattern(contact: Contact)

  datatype Format = DateFormat | EmailFormat | DataUrlFormat

  /** What the schema takes from elsewhere: the keys of each enumeration,
      the Instagram and Telegram patterns, and the `format` checks. */
  datatype Catalogue = Catalogue(
    keys: EnumSet -> seq<string>,
    contactMatches: (Contact, string) -> bool,
    formatHolds: (Format, string) -> bool)

  /** The value of `minimum` or `maximum`: a number, or (for the birthdate) a text. */
  datatype Limit = NumberLimit(n: int) | TextLimit(s: string)

  /** The keywords of an array's `items`: always strings here. */
  datatype ItemKeywords = ItemKeywords(enumOf: Option<EnumSet>, format: Option<Format>)

  datatype Keywords = Keywords(
    ty: JsonType,
    minLength: Option<nat>,
    maxLength: Option<nat>,
    pattern: Option<Pattern>,
    format: Option<Format>,
    enumOf: Option<EnumSet>,
    minimum: Option<Limit>,
    maximum: Option<Limit>,
    items: Option<ItemKeywords>,
    minItems: Option<nat>,
    maxItems: Option<nat>,
    uniqueItems: bool,
    constTrue: bool)

  /** The schema's property names. */
  datatype Name =
    | Firstname | Lastname | Birthdate | Nationality | City | Country
    | Whatsapp | Email | InstagramName | HasTelegram | TelegramName
    | Experience | EnglishLevel | Hardware
    | ComfortableWithVideos | PromoteOnSocialMedia | TimePerDay
    | PlannedContent | ExistingContent
    | CountryBlocked | HasOnlyfans | UsernameName | IsVerified | IsPaid
    | FollowerCount | MonthlyIncome
    | PhotosName | ApplicantNotes | TermsAccepted

  /** The key of each property in the instance object. */
  function NameText(n: Name): string {
    match n
    case Firstname => "firstname"
    case Lastname => "lastname"
    case Birthdate => "birthdate"
    case Nationality => "nationality"
    case City => "city"
    case Country => "country"
    case Whatsapp => "whatsapp"
    case Email => "email"
    case InstagramName => "instagram"
    case HasTelegram => "has_telegram"
    case TelegramName => "telegram"
    case Experience => "experience"
    case EnglishLevel => "english_level"
    case Hardware => "hardware"
    case ComfortableWithVideos => "comfortable_with_videos"
    case PromoteOnSocialMedia => "promote_on_social_media"
    case TimePerDay => "time_per_day"
    case PlannedContent => "planned_content"
    case ExistingContent => "existing_content"
    case CountryBlocked => "country_blocked"
    case HasOnlyfans => "has_onlyfans"
    case UsernameName => "username"
    case IsVerified => "is_verified"
    case IsPaid => "is_paid"
    case FollowerCount => "follower_count"
    case MonthlyIncome => "monthly_income"
    case PhotosName => "photos"
    case ApplicantNotes => "applicant_notes"
    case TermsAccepted => "terms_accepted"
  }

  /** A `dependencies` entry: when `dependent` is present, the `properties`
      subschema asks `controller` to be `const: true`. */
  datatype Dependency = Dependency(dependent: Name, controller: Name)

  datatype JsonSchema = JsonSchema(
    properties: Name -> Keywords,
    required: seq<Name>,
    dependencies: seq<Dependency>)

  // ---------------------------------------------------------------------
  // Validation (JSON Schema Validation draft-07)

  /** `type` (section 6.1.1); "number" admits every number. */
  predicate HasType(ty: JsonType, v: Json) {
    match ty
    case StringType => v.JStr?
    case NumberType => v.JNum?
    case BooleanType => v.JBool?
    case ArrayType => v.JArr?
  }

  predicate PatternMatches(cat: Catalogue, p: Pattern, s: string) {
    match p
    case Phone => Test(PhonePattern, s)
    case Username => Test(UsernamePattern, s)
    case ContactPattern(c) => cat.contactMatches(c, s)
  }

  /** `minLength`, `maxLength`, `pattern` (sections 6.3.1-6.3.3) and `format`. */
  predicate StringHolds(cat: Catalogue, k: Keywords, s: string) {
    && (k.minLength.Some? ==> |s| >= k.minLength.value)
    && (k.maxLength.Some? ==> |s| <= k.maxLength.value)
    && (k.pattern.Some? ==> PatternMatches(cat, k.pattern.value, s))
    && (k.format.Some? ==> cat.formatHolds(k.format.value, s))
  }

  /** `minimum` and `maximum` (sections 6.2.2 and 6.2.4): a limit that is
      not a number constrains nothing. */
  predicate NumberHolds(k: Keywords, n: int) {
    && (k.minimum.Some? && k.minimum.value.NumberLimit? ==> n >= k.minimum.value.n)
    && (k.maximum.Some? && k.maximum.value.NumberLimit? ==> n <= k.maximum.value.n)
  }

  predicate Distinct(xs: seq<Json>) {
    forall i, j :: 0 <= i < j < |xs| ==> xs[i] != xs[j]
  }

  predicate ItemHolds(cat: Catalogue, it: ItemKeywords, v: Json) {
    && v.JStr?
    && (it.enumOf.Some? ==> v.s in cat.keys(it.enumOf.value))
    && (it.format.Some? ==> cat.formatHolds(it.format.value, v.s))
  }

  /** `items`, `maxItems`, `minItems` and `uniqueItems` (sections 6.4.1-6.4.5). */
  predicate ArrayHolds(cat: Catalogue, k: Keywords, xs: seq<Json>) {
    && (k.minItems.Some? ==> |xs| >= k.minItems.value)
    && (k.maxItems.Some? ==> |xs| <= k.maxItems.value)
    && (k.uniqueItems ==> Distinct(xs))
    && (k.items.Some? ==> forall i :: 0 <= i < |xs| ==> ItemHolds(cat, k.items.value, xs[i]))
  }

  /** A property value satisfies its keywords. Every keyword but `type`,
      `enum` and `const` applies to one instance type only. */
  predicate Accepts(cat: Catalogue, k: Keywords, v: Json) {
    && HasType(k.ty, v)
    && (k.enumOf.Some? ==> v.JStr? && v.s in cat.keys(k.enumOf.value))
    && (k.constTrue ==> v == JBool(true))
    && (v.JStr? ==> StringHolds(cat, k, v.s))
    && (v.JNum? ==> NumberHolds(k, v.n))
    && (v.JArr? ==> ArrayHolds(cat, k, v.items))
  }

  /** The `properties` subschema of a dependency: the controller, when present, is `true`. */
  predicate ControllerHolds(controller: Name, inst: map<string, Json>) {
    NameText(controller) in inst ==> inst[NameText(controller)] == JBool(true)
  }

  /** Names the schema does not declare are left unconstrained. */
  predicate PropertiesHold(cat: Catalogue, sc: JsonSchema, inst: map<string, Json>) {
    forall n: Name :: NameText(n) in inst ==> Accepts(cat, sc.properties(n), inst[NameText(n)])
  }

  predicate RequiredHold(sc: JsonSchema, inst: map<string, Json>) {
    forall i :: 0 <= i < |sc.required| ==> NameText(sc.required[i]) in inst
  }

  predicate DependenciesHold(sc: JsonSchema, inst: map<string, Json>) {
    forall i :: 0 <= i < |sc.dependencies| && NameText(sc.dependencies[i].dependent) in inst ==>
      ControllerHolds(sc.dependencies[i].controller, inst)
  }

  /** An object instance is valid against the schema (`properties`,
      `required` and `dependencies`, sections 6.5.4, 6.5.3 and 6.5.7). */
  predicate Validates(cat: Catalogue, sc: JsonSchema, inst: map<string, Json>) {
    PropertiesHold(cat, sc, inst) && RequiredHold(sc, inst) && DependenciesHold(sc, inst)
  }

  // ---------------------------------------------------------------------
  // The form's schema

  const Text := Keywords(StringType, None, None, None, None, None, None, None, None, None, None, false, false)
  const Flag := Text.(ty := BooleanType)
  const Amount := Text.(ty := NumberType, minimum := Some(NumberLimit(0)))

  function BoundedText(lo: Option<nat>, hi: Option<nat>): Keywords {
    Text.(minLength := lo, maxLength := hi)
  }

  function Choice(e: EnumSet): Keywords {
    Text.(enumOf := Some(e))
  }

  function ContentList(atLeast: nat): Keywords {
    Text.(ty := ArrayType, items := Some(ItemKeywords(Some(ContentKinds), None)),
          minItems := Some(atLeast), uniqueItems := true)
  }

  const Photos := Text.(ty := ArrayType, items := Some(ItemKeywords(None, Some(DataUrlFormat))),
                        minItems := Some(5), maxItems := Some(10))

  /** The keywords of each property, given the birthdate's `minimum` and `maximum` texts. */
  function PropertyKeywords(oldest: string, youngest: string, n: Name): Keywords {
    match n
    case Firstname => BoundedText(Some(1), Some(64))
    case Lastname => BoundedText(Some(1), Some(64))
    case Birthdate =>
      Text.(format := Some(DateFormat), minimum := Some(TextLimit(oldest)), maximum := Some(TextLimit(youngest)))
    case Nationality => Choice(CountryCodes)
    case City => BoundedText(Some(1), Some(64))
    case Country => Choice(CountryCodes)
    case Whatsapp => Text.(pattern := Some(Phone))
    case Email => Text.(format := Some(EmailFormat))
    case InstagramName => Text.(pattern := Some(ContactPattern(Instagram)))
    case HasTelegram => Flag
    case TelegramName => Text.(pattern := Some(ContactPattern(Telegram)))
    case Experience => Choice(Experiences)
    case EnglishLevel => Choice(EnglishLevels)
    case Hardware => BoundedText(Some(1), None)
    case ComfortableWithVideos => Flag
    case PromoteOnSocialMedia => Flag
    case TimePerDay => Choice(TimesPerDay)
    case PlannedContent => ContentList(3)
    case ExistingContent => ContentList(2)
    case CountryBlocked => Flag
    case HasOnlyfans => Flag
    case UsernameName => Text.(pattern := Some(Username))
    case IsVerified => Flag
    case IsPaid => Flag
    case FollowerCount => Amount
    case MonthlyIncome => Amount
    case PhotosName => Photos
    case ApplicantNotes => BoundedText(None, Some(5000))
    case TermsAccepted => Flag.(constTrue := true)
  }

  /** The schema, given the birthdate's `minimum` and `maximum` texts. Every
      dependency is controlled by a boolean property, and neither side of a
      dependency is required: an applicant without Telegram or OnlyFans
      leaves both out. */
  function FormSchema(oldest: string, youngest: string): (sc: JsonSchema)
    ensures forall i :: 0 <= i < |sc.dependencies| ==>
      sc.properties(sc.dependencies[i].controller).ty == BooleanType
    ensures forall i, j :: 0 <= i < |sc.dependencies| && 0 <= j < |sc.required| ==>
      sc.dependencies[i].dependent != sc.required[j] && sc.dependencies[i].controller != sc.required[j]
  {
    JsonSchema(
      n => PropertyKeywords(oldest, youngest, n),
      [ Firstname, Lastname, Birthdate, Nationality, City, Country,
        Whatsapp, Email, Experience, EnglishLevel, Hardware,
        TimePerDay, PlannedContent, ExistingContent, TermsAccepted],
      [ Dependency(TelegramName, HasTelegram),
        Dependency(UsernameName, HasOnlyfans),
        Dependency(IsVerified, HasOnlyfans),
        Dependency(IsPaid, HasOnlyfans),
        Dependency(FollowerCount, HasOnlyfans),
        Dependency(MonthlyIncome, HasOnlyfans)])
  }

  // ---------------------------------------------------------------------
  // What each property accepts

  /** `firstname`, `lastname` and `city` take 1 to 64 characters. */
  lemma ShortTextLengths(cat: Catalogue, oldest: string, youngest: string, n: Name, v: Json)
    requires n == Firstname || n == Lastname || n == City
    ensures Accepts(cat, FormSchema(oldest, youngest).properties(n), v) <==> v.JStr? && 1 <= |v.s| <= 64
  {
  }

  /** `hardware` takes at least one character, `applicant_notes` at most 5000. */
  lemma LongTextLengths(cat: Catalogue, oldest: string, youngest: string, v: Json)
    ensures Accepts(cat, FormSchema(oldest, youngest).properties(Hardware), v) <==> v.JStr? && 1 <= |v.s|
    ensures Accepts(cat, FormSchema(oldest, youngest).properties(ApplicantNotes), v) <==> v.JStr? && |v.s| <= 5000
  {
  }

  /** `whatsapp` takes exactly a '+' followed by 10 to 15 ASCII digits. */
  lemma WhatsappIsPhoneNumber(cat: Catalogue, oldest: string, youngest: string, v: Json)
    ensures Accepts(cat, FormSchema(oldest, youngest).properties(Whatsapp), v) <==> v.JStr? && IsPhoneNumber(v.s)
  {
    if v.JStr? {
      PhonePatternIff(v.s);
    }
  }

  /** `username` takes exactly 5 to 24 letters, digits, '-', '.' or '_' with
      no two of the last three side by side. */
  lemma UsernameShape(cat: Catalogue, oldest: string, youngest: string, v: Json)
    ensures Accepts(cat, FormSchema(oldest, youngest).properties(UsernameName), v) <==> v.JStr? && IsUsername(v.s)
  {
    if v.JStr? {
      UsernamePatternIff(v.s);
    }
  }

  /** The select lists take exactly a key of their enumeration. */
  lemma ChoicesTakeKeys(cat: Catalogue, oldest: string, youngest: string, n: Name, e: EnumSet, v: Json)
    requires (n, e) in {(Nationality, CountryCodes), (Country, CountryCodes), (Experience, Experiences),
                         (EnglishLevel, EnglishLevels), (TimePerDay, TimesPerDay)}
    ensures Accepts(cat, FormSchema(oldest, youngest).properties(n), v) <==> v.JStr? && v.s in cat.keys(e)
  {
  }

  predicate ContentKeys(cat: Catalogue, xs: seq<Json>) {
    forall i :: 0 <= i < |xs| ==> xs[i].JStr? && xs[i].s in cat.keys(ContentKinds)
  }

  /** `planned_content` takes at least 3 distinct content kinds, `existing_content` at least 2. */
  lemma ContentListsDistinct(cat: Catalogue, oldest: string, youngest: string, v: Json)
    ensures Accepts(cat, FormSchema(oldest, youngest).properties(PlannedContent), v)
      <==> v.JArr? && |v.items| >= 3 && Distinct(v.items) && ContentKeys(cat, v.items)
    ensures Accepts(cat, FormSchema(oldest, youngest).properties(ExistingContent), v)
      <==> v.JArr? && |v.items| >= 2 && Distinct(v.items) && ContentKeys(cat, v.items)
  {
  }

  /** `photos` takes 5 to 10 data URLs. */
  lemma PhotosCount(cat: Catalogue, oldest: string, youngest: string, v: Json)
    ensures Accepts(cat, FormSchema(oldest, youngest).properties(PhotosName), v)
      <==> v.JArr? && 5 <= |v.items| <= 10
           && forall i :: 0 <= i < |v.items| ==> v.items[i].JStr? && cat.formatHolds(DataUrlFormat, v.items[i].s)
  {
  }

  /** `follower_count` and `monthly_income` take numbers no less than 0. */
  lemma AmountsNonNegative(cat: Catalogue, oldest: string, youngest: string, n: Name, v: Json)
    requires n == FollowerCount || n == MonthlyIncome
    ensures Accepts(cat, FormSchema(oldest, youngest).properties(n), v) <==> v.JNum? && v.n >= 0
  {
  }

  /** `terms_accepted` takes `true` and nothing else. */
  lemma TermsOnlyTrue(cat: Catalogue, oldest: string, youngest: string, v: Json)
    ensures Accepts(cat, FormSchema(oldest, youngest).properties(TermsAccepted), v) <==> v == JBool(true)
  {
  }

  /** `minimum` and `maximum` apply to numbers only, so the birthdate's text
      limits accept every date text the `date` format accepts. */
  lemma BirthdateLimitsIgnored(cat: Catalogue, oldest: string, youngest: string, v: Json)
    ensures Accepts(cat, FormSchema(oldest, youngest).properties(Birthdate), v)
      <==> v.JStr? && cat.formatHolds(DateFormat, v.s)
  {
  }

  // ---------------------------------------------------------------------
  // What a valid instance holds

  /** A valid instance has every required property, and `terms_accepted` is `true`. */
  lemma ValidInstanceAcceptsTerms(cat: Catalogue, oldest: string, youngest: string, inst: map<string, Json>)
    requires Validates(cat, FormSchema(oldest, youngest), inst)
    ensures forall n :: n in FormSchema(oldest, youngest).required ==> NameText(n) in inst
    ensures "terms_accepted" in inst && inst["terms_accepted"] == JBool(true)
  {
    var sc := FormSchema(oldest, youngest);
    forall n | n in sc.required ensures NameText(n) in inst {
      var i :| 0 <= i < |sc.required| && sc.required[i] == n;
    }
    assert sc.required[14] == TermsAccepted;
    assert NameText(TermsAccepted) == "terms_accepted";
  }

  /** When a dependent property and its controller are both present, a valid
      instance has the controller `true`. */
  lemma DependentNeedsController(cat: Catalogue, oldest: string, youngest: string,
                                 inst: map<string, Json>, d: Dependency)
    requires d in FormSchema(oldest, youngest).dependencies
    requires Validates(cat, FormSchema(oldest, youngest), inst)
    requires NameText(d.dependent) in inst && NameText(d.controller) in inst
    ensures inst[NameText(d.controller)] == JBool(true)
  {
    var sc := FormSchema(oldest, youngest);
    var i :| 0 <= i < |sc.dependencies| && sc.dependencies[i] == d;
  }

  /** Without their controllers, the dependencies never fail: `properties`
      constrains only the names an instance has. */
  lemma AbsentControllersPass(oldest: string, youngest: string, inst: map<string, Json>)
    requires "has_telegram" !in inst && "has_onlyfans" !in inst
    ensures DependenciesHold(FormSchema(oldest, youngest), inst)
  {
    assert NameText(HasTelegram) == "has_telegram" && NameText(HasOnlyfans) == "has_onlyfans";
  }

  // ---------------------------------------------------------------------
  // The birthdate's limits: `subYears(new Date(), n).toISOString().split('T')[0]`

  /** date-fns `subYears` on a local calendar date: `years` earlier in the
      same month, the day capped at that month's length. */
  function SubYears(c: Civil, years: int): (r: Civil)
    requires ValidCivil(c)
    ensures ValidCivil(r) && r.year == c.year - years && r.month == c.month
    ensures r.day == c.day || r.day == DaysInMonth(r.year, r.month) < c.day
  {
    var y := c.year - years;
    Civil(y, c.month, if c.day <= DaysInMonth(y, c.month) then c.day else DaysInMonth(y, c.month))
  }

  /** The clock reads `now` (milliseconds since the epoch), the local time
      zone is `offset` milliseconds ahead of UTC (less than a day either
      way), and both today's local date and the date `years` earlier lie
      within 200000 years of 1970. */
  predicate ClockInRange(now: int, offset: int, years: nat) {
    && -86400000 < offset < 86400000
    && UtcDate(now + offset).year <= 200000
    && -200000 <= UtcDate(now + offset).year - years
  }

  /** A date within 200000 years of 1970 is within 80000000 days of it. */
  lemma DayNumberBound(c: Civil)
    requires ValidCivil(c) && -200000 <= c.year <= 200000
    ensures -80000000 <= DayNumber(c.year, c.month, c.day) <= 80000000
  {
    DayNumberInYear(c);
    if c.year >= 1970 {
      DaysBeforeYearMonotone(1970, c.year);
      DaysBeforeYearAtMost(1970, c.year + 1);
    } else {
      DaysBeforeYearAtMost(c.year, 1970);
      DaysBeforeYearMonotone(c.year + 1, 1970);
    }
  }

  /** The instant `subYears(new Date(), years)`: the local date `years`
      earlier at the same local time of day. */
  function YearsBefore(now: int, offset: int, years: nat): (t: int)
    requires ClockInRange(now, offset, years)
    ensures -8000000000000000 <= t <= 8000000000000000
    ensures UtcDate(t + offset) == SubYears(UtcDate(now + offset), years)
    ensures (t + offset) % 86400000 == (now + offset) % 86400000
  {
    var local := now + offset;
    var c := SubYears(UtcDate(local), years);
    var n := DayNumber(c.year, c.month, c.day);
    DayNumberBound(c);
    CivilRoundTrip(c);
    UtcDateOfDay(n * 86400000 + local % 86400000, n, local % 86400000, c);
    n * 86400000 + local % 86400000 - offset
  }

  /** The limit text as written: the `YYYY-MM-DD` of the UTC date of that instant. */
  function BirthdateLimit(now: int, offset: int, years: nat): (s: string)
    requires ClockInRange(now, offset, years)
    ensures ParseFullDate(s) == Some((UtcDate(YearsBefore(now, offset, years)), |s|))
  {
    var t := YearsBefore(now, offset, years);
    IsoTextDatePart(t);
    FullDateParses(UtcDate(t), "");
    assert FullDateText(UtcDate(t)) + "" == FullDateText(UtcDate(t));
    BeforeT(IsoText(t))
  }

  /** The limit text as intended: the `YYYY-MM-DD` of the local date `years` ago. */
  function LocalBirthdateLimit(now: int, offset: int, years: nat): (s: string)
    requires ClockInRange(now, offset, years)
    ensures ParseFullDate(s) == Some((SubYears(UtcDate(now + offset), years), |s|))
  {
    var c := SubYears(UtcDate(now + offset), years);
    FullDateParses(c, "");
    assert FullDateText(c) + "" == FullDateText(c);
    FullDateText(c)
  }

  /** The schema of today: its birthdate limits are the UTC dates of the
      instants 40 and 18 local calendar years ago. */
  function FormSchemaAt(now: int, offset: int): (sc: JsonSchema)
    requires ClockInRange(now, offset, 40)
    ensures sc.properties(Birthdate).minimum == Some(TextLimit(BirthdateLimit(now, offset, 40)))
    ensures sc.properties(Birthdate).maximum == Some(TextLimit(BirthdateLimit(now, offset, 18)))
  {
    FormSchema(BirthdateLimit(now, offset, 40), BirthdateLimit(now, offset, 18))
  }

  /** Going back further in years gives an earlier day, by at least 334 days a year. */
  lemma SubYearsOrdered(c: Civil, older: int, younger: int)
    requires ValidCivil(c) && younger < older
    ensures var a, b := SubYears(c, older), SubYears(c, younger);
      DayNumber(a.year, a.month, a.day) + 365 * (older - younger) - 31 <= DayNumber(b.year, b.month, b.day)
  {
    DaysBeforeYearMonotone(c.year - older, c.year - younger);
  }

  /** A full-date text parses to midnight UTC of its date. */
  lemma ParseLimitText(s: string, c: Civil)
    requires ParseFullDate(s) == Some((c, |s|))
    requires ValidCivil(c) && -200000 <= c.year <= 200000
    ensures ParseDate(s) == At(DayNumber(c.year, c.month, c.day) * 86400000)
  {
    ParseDateOfFullDate(s, c, |s|);
    DayNumberBound(c);
  }

  /** The intended limits: the older one is a strictly earlier date. */
  lemma {:induction false} LocalLimitsOrdered(now: int, offset: int, older: nat, younger: nat)
    requires younger < older && ClockInRange(now, offset, older)
    ensures ParseDate(LocalBirthdateLimit(now, offset, older)).At?
    ensures ParseDate(LocalBirthdateLimit(now, offset, younger)).At?
    ensures ParseDate(LocalBirthdateLimit(now, offset, older)).ms
          < ParseDate(LocalBirthdateLimit(now, offset, younger)).ms
  {
    var l := UtcDate(now + offset);
    var a, b := SubYears(l, older), SubYears(l, younger);
    ParseLimitText(LocalBirthdateLimit(now, offset, older), a);
    ParseLimitText(LocalBirthdateLimit(now, offset, younger), b);
    SubYearsOrdered(l, older, younger);
  }

  /** The minimum birthdate is before the maximum: 40 years ago precedes 18 years ago. */
  lemma BirthdateLimitsOrdered(now: int, offset: int)
    requires ClockInRange(now, offset, 40)
    ensures var sc := FormSchemaAt(now, offset);
      ParseDate(sc.properties(Birthdate).minimum.value.s).At?
      && ParseDate(sc.properties(Birthdate).maximum.value.s).At?
      && ParseDate(sc.properties(Birthdate).minimum.value.s).ms
         < ParseDate(sc.properties(Birthdate).maximum.value.s).ms
  {
    AsWrittenLimitsOrdered(now, offset, 40, 18);
  }

  /** The limits as written keep the same order. */
  lemma {:induction false} AsWrittenLimitsOrdered(now: int, offset: int, older: nat, younger: nat)
    requires younger < older && ClockInRange(now, offset, older)
    ensures ParseDate(BirthdateLimit(now, offset, older)).At?
    ensures ParseDate(BirthdateLimit(now, offset, younger)).At?
    ensures ParseDate(BirthdateLimit(now, offset, older)).ms < ParseDate(BirthdateLimit(now, offset, younger)).ms
  {
    var l := UtcDate(now + offset);
    SubYearsOrdered(l, older, younger);
    var ta, tb := YearsBefore(now, offset, older), YearsBefore(now, offset, younger);
    AsWrittenLimitParses(now, offset, older);
    AsWrittenLimitParses(now, offset, younger);
    var a, b := SubYears(l, older), SubYears(l, younger);
    DayAndOffset(ta + offset);
    DayAndOffset(tb + offset);
    assert ta + 86400000 < tb;
  }

  /** The as-written limit parses to midnight UTC of the instant's UTC day. */
  lemma AsWrittenLimitParses(now: int, offset: int, years: nat)
    requires ClockInRange(now, offset, years)
    ensures var t := YearsBefore(now, offset, years);
      ParseDate(BirthdateLimit(now, offset, years)) == At(t / 86400000 * 86400000)
  {
    var t := YearsBefore(now, offset, years);
    var c := UtcDate(t);
    ValidTimeYears(t);
    assert DayNumber(c.year, c.month, c.day) == t / 86400000;
    ParseDateOfFullDate(BirthdateLimit(now, offset, years), c, |BirthdateLimit(now, offset, years)|);
  }

  /** The local time of day shifted to UTC stays within the same day. */
  predicate SameDayInUtc(now: int, offset: int) {
    0 <= (now + offset) % 86400000 - offset < 86400000
  }

  /** When the shift to UTC stays within the day, the limit as written is the intended one. */
  lemma LimitAgreesWithinDay(now: int, offset: int, years: nat)
    requires ClockInRange(now, offset, years) && SameDayInUtc(now, offset)
    ensures BirthdateLimit(now, offset, years) == LocalBirthdateLimit(now, offset, years)
  {
    var c := SubYears(UtcDate(now + offset), years);
    var n := DayNumber(c.year, c.month, c.day);
    var t := YearsBefore(now, offset, years);
    CivilRoundTrip(c);
    UtcDateOfDay(t, n, (now + offset) % 86400000 - offset, c);
    IsoTextDatePart(t);
  }

  /** When the shift to UTC crosses midnight (east of UTC in the first hours
      of the day, west of it in the last ones), the limit as written is the
      day before or after the intended one. */
  lemma LimitDiffersAcrossMidnight(now: int, offset: int, years: nat)
    requires ClockInRange(now, offset, years) && !SameDayInUtc(now, offset)
    ensures BirthdateLimit(now, offset, years) != LocalBirthdateLimit(now, offset, years)
  {
    var c := SubYears(UtcDate(now + offset), years);
    var n := DayNumber(c.year, c.month, c.day);
    var t := YearsBefore(now, offset, years);
    var r := (now + offset) % 86400000 - offset;
    assert t == n * 86400000 + r;
    if r < 0 {
      assert t / 86400000 == n - 1;
    } else {
      assert t / 86400000 == n + 1;
    }
    assert UtcDate(t) != c;
  }
}
