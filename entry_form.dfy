/**
 * The entry form: the schema that decides whether the values typed in may be
 * submitted, and the record handed to the store when they are.
 */
module EntryForm {
  import opened Wrappers
  import opened Journal
  import opened Dates
  import Storage

  /**
   * The form's values as the schema sees them. The category is the selected
   * text; a date is `None` until one is picked; the hours are `None` when the
   * number input does not parse as a number.
   */
  datatype FormValues = FormValues(
    category: string,
    activityDetails: string,
    activityStart: Option<Date>,
    activityEnd: Option<Date>,
    hoursSpent: Option<real>,
    activityOwner: string)

  /** The form fields an issue can be attached to. */
  datatype Field = CategoryField | DetailsField | StartField | EndField | HoursField | OwnerField

  const MaxDetailsLength: nat := 500
  const MinHours: real := 0.1

  /** A date field holds a real calendar day. */
  predicate DatePresent(d: Option<Date>) {
    d.Some? && ValidDate(d.value)
  }

  /** The schema of each field on its own. */
  predicate FieldOk(f: FormValues, field: Field) {
    match field
    case CategoryField => ParseCategory(f.category).Some?
    case DetailsField => 1 <= |f.activityDetails| <= MaxDetailsLength
    case StartField => DatePresent(f.activityStart)
    case EndField => DatePresent(f.activityEnd)
    case HoursField => f.hoursSpent.Some? && f.hoursSpent.value >= MinHours
    case OwnerField => |f.activityOwner| >= 1
  }

  /** The cross-field rule: with both days picked, the end day is before the start day. */
  predicate EndBeforeStart(f: FormValues) {
    DatePresent(f.activityStart) && DatePresent(f.activityEnd)
    && !NotAfter(f.activityStart.value, f.activityEnd.value)
  }

  /**
   * The fields with an issue: exactly the fields failing their own check,
   * plus the end day when it is before the start day.
   */
  function Issues(f: FormValues): (r: set<Field>)
    ensures EndBeforeStart(f) ==> EndField in r
    ensures forall field :: !FieldOk(f, field) ==> field in r
    ensures forall field :: field in r ==> !FieldOk(f, field) || (field == EndField && EndBeforeStart(f))
  {
    (set field: Field | !FieldOk(f, field)) + (if EndBeforeStart(f) then {EndField} else {})
  }

  /**
   * The schema as one predicate: accepted exactly when every field passes its
   * own check and the end day is not before the start day.
   */
  predicate Accepts(f: FormValues)
    ensures Accepts(f) <==> (forall field :: FieldOk(f, field)) && !EndBeforeStart(f)
  {
    EveryFieldOk(f);
    && ParseCategory(f.category).Some?
    && 1 <= |f.activityDetails| <= MaxDetailsLength
    && DatePresent(f.activityStart)
    && DatePresent(f.activityEnd)
    && f.hoursSpent.Some? && f.hoursSpent.value >= MinHours
    && |f.activityOwner| >= 1
    && NotAfter(f.activityStart.value, f.activityEnd.value)
  }

  /** Every field passes its check exactly when each of the six does. */
  lemma EveryFieldOk(f: FormValues)
    ensures (forall field :: FieldOk(f, field)) <==>
      FieldOk(f, CategoryField) && FieldOk(f, DetailsField) && FieldOk(f, StartField)
      && FieldOk(f, EndField) && FieldOk(f, HoursField) && FieldOk(f, OwnerField)
  {
    forall field: Field | FieldOk(f, CategoryField) && FieldOk(f, DetailsField) && FieldOk(f, StartField)
      && FieldOk(f, EndField) && FieldOk(f, HoursField) && FieldOk(f, OwnerField)
      ensures FieldOk(f, field)
    {
      match field
      case CategoryField =>
      case DetailsField =>
      case StartField =>
      case EndField =>
      case HoursField =>
      case OwnerField =>
    }
  }

  /** The values are accepted exactly when no field has an issue. */
  lemma AcceptsIffNoIssues(f: FormValues)
    ensures Accepts(f) <==> Issues(f) == {}
  {
    if !Accepts(f) {
      if !FieldOk(f, CategoryField) { assert CategoryField in Issues(f); }
      else if !FieldOk(f, DetailsField) { assert DetailsField in Issues(f); }
      else if !FieldOk(f, StartField) { assert StartField in Issues(f); }
      else if !FieldOk(f, EndField) { assert EndField in Issues(f); }
      else if !FieldOk(f, HoursField) { assert HoursField in Issues(f); }
      else if !FieldOk(f, OwnerField) { assert OwnerField in Issues(f); }
      else { assert EndField in Issues(f); }
    } else {
      forall field: Field ensures FieldOk(f, field) {
      }
    }
  }

  /**
   * Where each bound sits: details of 500 characters pass and of 501 or 0 do
   * not; 0.1 hours pass and anything less does not; an empty owner does not.
   */
  lemma FieldBoundaries(f: FormValues, h: real)
    requires Accepts(f)
    ensures Accepts(f.(activityDetails := seq(500, _ => 'x')))
    ensures !Accepts(f.(activityDetails := seq(501, _ => 'x'))) && !Accepts(f.(activityDetails := ""))
    ensures Accepts(f.(hoursSpent := Some(0.1)))
    ensures h < 0.1 ==> !Accepts(f.(hoursSpent := Some(h)))
    ensures !Accepts(f.(hoursSpent := None)) && !Accepts(f.(activityOwner := ""))
  {
  }

  /** A whitespace-only owner is accepted: the owner is not trimmed. */
  lemma BlankOwnerAccepted(f: FormValues)
    requires Accepts(f)
    ensures Accepts(f.(activityOwner := " "))
  {
  }

  /** Picking an end day before the start day is rejected, with the issue on the end day. */
  lemma EndBeforeStartRejected(f: FormValues)
    requires DatePresent(f.activityStart) && DatePresent(f.activityEnd)
    requires !NotAfter(f.activityStart.value, f.activityEnd.value)
    ensures !Accepts(f) && EndField in Issues(f)
  {
  }

  /** The values the form starts with when no defaults are passed in. */
  const DefaultValues := FormValues("Firm Building", "", None, None, Some(1.0), "")

  /** The initial values cannot be submitted: details and owner are empty and no day is picked. */
  lemma DefaultValuesRejected()
    ensures !Accepts(DefaultValues)
    ensures Issues(DefaultValues) == {DetailsField, StartField, EndField, OwnerField}
  {
  }

  /**
   * `handleSubmit` behind the schema: accepted values are turned into the
   * record for the store, the days rendered as `yyyy-MM-dd`; rejected values
   * submit nothing. A submitted record meets every rule, and its day texts
   * read back as the days picked.
   */
  function Submit(f: FormValues): (r: Option<Storage.EntryFields>)
    ensures r.Some? <==> Accepts(f)
    ensures r.Some? ==>
      && CategoryName(r.value.category) == f.category
      && r.value.activityDetails == f.activityDetails
      && r.value.activityStart == FormatDate(f.activityStart.value)
      && r.value.activityEnd == FormatDate(f.activityEnd.value)
      && r.value.hoursSpent == f.hoursSpent.value
      && r.value.activityOwner == f.activityOwner
    ensures r.Some? ==> WellFormed(r.value)
    ensures r.Some? ==> ParseDate(r.value.activityStart) == f.activityStart
    ensures r.Some? ==> ParseDate(r.value.activityEnd) == f.activityEnd
  {
    if Accepts(f) then
      ParseCategorySound(f.category);
      Some(Storage.EntryFields(
        ParseCategory(f.category).value, f.activityDetails,
        FormatDate(f.activityStart.value), FormatDate(f.activityEnd.value),
        f.hoursSpent.value, f.activityOwner))
    else None
  }

  /** What a stored record satisfies when it came through the form. */
  predicate WellFormed(p: Storage.EntryFields) {
    && 1 <= |p.activityDetails| <= MaxDetailsLength
    && p.hoursSpent >= MinHours
    && |p.activityOwner| >= 1
    && ParseDate(p.activityStart).Some? && ValidDate(ParseDate(p.activityStart).value)
    && ParseDate(p.activityEnd).Some? && ValidDate(ParseDate(p.activityEnd).value)
    && NotAfter(ParseDate(p.activityStart).value, ParseDate(p.activityEnd).value)
  }
}
