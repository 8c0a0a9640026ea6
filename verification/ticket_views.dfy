/** The ticket endpoints of crm/ticket/views.py: the list query with its
    filters and ordering, and the create and update views, each of which
    edits a copy of the request body before handing it to the serializer. */
module TicketViews {
  import opened Results
  import opened Text
  import opened TicketFields

  /** Defaults the create view writes into the request copy. */
  const CreateDefaultStatus: string := "open"
  const CreateDefaultPriority: string := "medium"

  /** Why a create or update request is answered with 400 Bad Request. */
  datatype ErrorReport =
    | Invalid(errors: FieldErrors)  // the serializer's per-field errors
    | NotAString                    // `.lower()` on a null value raised AttributeError
    | TicketNotFound                // `get_object()` raised Http404 inside the same handler

  /** `value.lower()`: defined on strings only. */
  function LowerValue(v: Value): (r: Result<Value, ErrorReport>)
    ensures r.Ok? <==> v.Str?
    ensures r.Ok? ==> r.value == Str(Lower(v.s))
    ensures r.Err? ==> r.error == NotAString
  {
    match v
    case Str(s) => Ok(Str(Lower(s)))
    case Null => Err(NotAString)
  }

  /** `data[key] = data[key].lower()` when `key` is present. */
  function LowerKey(data: Data, f: Field): (r: Result<Data, ErrorReport>)
    ensures r.Ok? <==> !(FieldKey(f) in data && data[FieldKey(f)].Null?)
    ensures r.Err? ==> r.error == NotAString
    ensures r.Ok? ==> r.value.Keys == data.Keys
    ensures r.Ok? && FieldKey(f) in data ==> r.value[FieldKey(f)] == Str(Lower(data[FieldKey(f)].s))
    ensures r.Ok? ==> forall k :: k in data && k != FieldKey(f) ==> r.value[k] == data[k]
  {
    var k := FieldKey(f);
    if k !in data then Ok(data)
    else match LowerValue(data[k])
      case Ok(v) => Ok(data[k := v])
      case Err(e) => Err(e)
  }

  /** `data[key] = default` when `key` is absent. */
  function DefaultKey(data: Data, f: Field, default: string): (r: Data)
    ensures r.Keys == data.Keys + {FieldKey(f)}
    ensures FieldKey(f) !in data ==> r[FieldKey(f)] == Str(default)
    ensures forall k :: k in data ==> r[k] == data[k]
  {
    if FieldKey(f) in data then data else data[FieldKey(f) := Str(default)]
  }

  // ---------------------------------------------------------------------------
  // CreateTicketAPIView
  // ---------------------------------------------------------------------------

  /** The create view's edits of the request copy: lower-case `source`, then
      default `status` and `priority`. The caller's body is a value and is
      never altered. */
  function NormalizeForCreate(data: Data): (r: Result<Data, ErrorReport>)
    ensures r.Err? <==> FieldKey(Source) in data && data[FieldKey(Source)].Null?
    ensures r.Err? ==> r.error == NotAString
    ensures r.Ok? ==> r.value.Keys == data.Keys + {FieldKey(Status), FieldKey(Priority)}
    ensures r.Ok? && FieldKey(Source) in data ==> r.value[FieldKey(Source)] == Str(Lower(data[FieldKey(Source)].s))
    ensures r.Ok? ==>
              r.value[FieldKey(Status)] == if FieldKey(Status) in data then data[FieldKey(Status)] else Str(CreateDefaultStatus)
    ensures r.Ok? ==>
              r.value[FieldKey(Priority)] == if FieldKey(Priority) in data then data[FieldKey(Priority)] else Str(CreateDefaultPriority)
    ensures r.Ok? ==> forall k :: k in data && k != FieldKey(Source) ==> r.value[k] == data[k]
  {
    match LowerKey(data, Source)
    case Err(e) => Err(e)
    case Ok(d) => Ok(DefaultKey(DefaultKey(d, Status, CreateDefaultStatus), Priority, CreateDefaultPriority))
  }

  /** The ticket table after a request, and the reply. */
  datatype Step = Step(tickets: seq<Ticket>, reply: Result<Ticket, ErrorReport>)

  /** No stored ticket has key `id`. */
  predicate IdFree(tickets: seq<Ticket>, id: nat) {
    forall j :: 0 <= j < |tickets| ==> tickets[j].id != id
  }

  /** The primary keys are pairwise distinct. */
  predicate IdsUnique(tickets: seq<Ticket>) {
    forall i, j :: 0 <= i < j < |tickets| ==> tickets[i].id != tickets[j].id
  }

  /** The create view for authenticated user `requester`; the database assigns
      the fresh key `id` and the instant `now`. */
  function Create(tickets: seq<Ticket>, data: Data, requester: UserId, users: set<UserId>, id: nat, now: int): (r: Step)
    requires IdFree(tickets, id)
    ensures r.reply.Err? ==> r.tickets == tickets
    ensures r.reply.Ok? ==> r.tickets == tickets + [r.reply.value]
    ensures FieldKey(Source) in data && data[FieldKey(Source)].Null? ==> r.reply == Err(NotAString)
    ensures r.reply.Ok? ==> CreatedFrom(r.reply.value, data, requester, id, now)
    ensures r.reply.Ok? ==> WellFormed(r.reply.value)
    ensures NormalizeForCreate(data).Ok? && Validate(NormalizeForCreate(data).value, false, users).Err? ==>
              r.reply == Err(Invalid(Validate(NormalizeForCreate(data).value, false, users).error))
    ensures r.reply.Err? && r.reply.error.Invalid? ==>
              && NormalizeForCreate(data).Ok?
              && forall f: Field :: f in r.reply.error.errors <==> Fails(f, NormalizeForCreate(data).value, false, users)
  {
    match NormalizeForCreate(data)
    case Err(e) => Step(tickets, Err(e))
    case Ok(d) =>
      match Validate(d, false, users)
      case Err(errors) => Step(tickets, Err(Invalid(errors)))
      case Ok(v) =>
        NewTicketWellFormed(d, users, Some(requester), id, now);
        CreatedFromNormalized(data, d, v, requester, users, id, now);
        var t := NewTicket(v, Some(requester), id, now);
        Step(tickets + [t], Ok(t))
  }

  /** The stored string of a supplied field: the request's string, trimmed. */
  function Supplied(data: Data, f: Field): string
    requires FieldKey(f) in data && data[FieldKey(f)].Str?
  {
    Strip(data[FieldKey(f)].s)
  }

  /** What a ticket created from `data` holds: `source` lower-cased; `status`
      and `priority` as supplied (not lower-cased) or the view's defaults;
      the requester as owner whatever the body said; fresh key and
      timestamps. */
  predicate CreatedFrom(t: Ticket, data: Data, requester: UserId, id: nat, now: int) {
    && t.id == id && t.createdAt == now && t.updatedAt == now
    && t.owner == Some(requester)
    && FieldKey(Name) in data && data[FieldKey(Name)].Str? && t.name == Supplied(data, Name)
    && FieldKey(Description) in data && data[FieldKey(Description)].Str? && t.description == Supplied(data, Description)
    && FieldKey(Source) in data && data[FieldKey(Source)].Str? && t.source == Strip(Lower(data[FieldKey(Source)].s))
    && NoUpper(t.source)
    && StatusFrom(t, data)
    && PriorityFrom(t, data)
    && t.phoneNumber == if FieldKey(PhoneNumber) in data then CleanValue(PhoneNumber, data[FieldKey(PhoneNumber)]) else None
  }

  /** A supplied `status` is stored trimmed but not lower-cased; an absent one
      becomes the view's default. */
  predicate StatusFrom(t: Ticket, data: Data) {
    if FieldKey(Status) in data then data[FieldKey(Status)].Str? && t.status == Supplied(data, Status)
    else t.status == CreateDefaultStatus
  }

  /** The same for `priority`. */
  predicate PriorityFrom(t: Ticket, data: Data) {
    if FieldKey(Priority) in data then data[FieldKey(Priority)].Str? && t.priority == Supplied(data, Priority)
    else t.priority == CreateDefaultPriority
  }

  /** The view's defaults carry no surrounding whitespace. */
  lemma DefaultStatusTrimmed()
    ensures Strip(CreateDefaultStatus) == CreateDefaultStatus
  {
    StripOfTrimmed(CreateDefaultStatus);
  }

  lemma DefaultPriorityTrimmed()
    ensures Strip(CreateDefaultPriority) == CreateDefaultPriority
  {
    StripOfTrimmed(CreateDefaultPriority);
  }

  /** A field the create view defaults: what validation keeps of it. */
  lemma DefaultedField(f: Field, data: Data, dv: Value, vv: Option<string>, default: string)
    requires f == Status || f == Priority
    requires dv == if FieldKey(f) in data then data[FieldKey(f)] else Str(default)
    requires vv == CleanValue(f, dv) && MeetsRule(RuleOf(f), vv)
    requires Strip(default) == default
    ensures vv.Some?
    ensures if FieldKey(f) in data then data[FieldKey(f)].Str? && vv.value == Supplied(data, f) else vv.value == default
  {
  }

  /** The saved ticket reflects the normalised body field by field. */
  lemma CreatedFromNormalized(data: Data, d: Data, v: Cleaned, requester: UserId, users: set<UserId>, id: nat, now: int)
    requires NormalizeForCreate(data) == Ok(d)
    requires Validate(d, false, users) == Ok(v)
    ensures CreatedFrom(NewTicket(v, Some(requester), id, now), data, requester, id, now)
  {
    NormalizedFacts(data, d);
    ValidatedFacts(d, v, false, users);
    CreatedFromFacts(data, d, v, requester, id, now);
  }

  /** What the create view's normalisation leaves in the body, field by field. */
  lemma NormalizedFacts(data: Data, d: Data)
    requires NormalizeForCreate(data) == Ok(d)
    ensures NormalizedPlain(data, d)
  {
  }

  /** `d` keeps field `f` of `data` as it was. */
  predicate KeptAsIs(data: Data, d: Data, f: Field) {
    (FieldKey(f) in d <==> FieldKey(f) in data) && (FieldKey(f) in d ==> d[FieldKey(f)] == data[FieldKey(f)])
  }

  predicate NormalizedPlain(data: Data, d: Data) {
    && KeptAsIs(data, d, Name) && KeptAsIs(data, d, Description) && KeptAsIs(data, d, PhoneNumber)
    && (FieldKey(Source) in d <==> FieldKey(Source) in data)
    && (FieldKey(Source) in d ==> data[FieldKey(Source)].Str? && d[FieldKey(Source)] == Str(Lower(data[FieldKey(Source)].s)))
    && FieldKey(Status) in d && FieldKey(Priority) in d
    && d[FieldKey(Status)] == (if FieldKey(Status) in data then data[FieldKey(Status)] else Str(CreateDefaultStatus))
    && d[FieldKey(Priority)] == (if FieldKey(Priority) in data then data[FieldKey(Priority)] else Str(CreateDefaultPriority))
  }

  /** What a full validation keeps of the body, field by field. */
  lemma ValidatedFacts(d: Data, v: Cleaned, partial: bool, users: set<UserId>)
    requires Validate(d, partial, users) == Ok(v)
    ensures ValidatedPlain(d, v)
    ensures !partial ==> HasRequired(v)
  {
    assert FieldsMeetRules(v);
  }

  /** Field `f` of `v` is the cleaned value of field `f` of `d`. */
  predicate CleanedFrom(d: Data, v: Cleaned, f: Field) {
    (f in v <==> FieldKey(f) in d) && (f in v ==> v[f] == CleanValue(f, d[FieldKey(f)]))
  }

  /** Validated data, one field at a time, with no quantifier left. */
  predicate ValidatedPlain(d: Data, v: Cleaned) {
    && CleanedFrom(d, v, Name) && CleanedFrom(d, v, Description) && CleanedFrom(d, v, Source)
    && CleanedFrom(d, v, Status) && CleanedFrom(d, v, Priority) && CleanedFrom(d, v, PhoneNumber)
    && CleanedFrom(d, v, Owner)
    && (Name in v ==> MeetsRule(RuleOf(Name), v[Name]))
    && (Description in v ==> MeetsRule(RuleOf(Description), v[Description]))
    && (Source in v ==> MeetsRule(RuleOf(Source), v[Source]))
    && (Status in v ==> MeetsRule(RuleOf(Status), v[Status]))
    && (Priority in v ==> MeetsRule(RuleOf(Priority), v[Priority]))
  }

  lemma CreatedFromFacts(data: Data, d: Data, v: Cleaned, requester: UserId, id: nat, now: int)
    requires NormalizedPlain(data, d) && ValidatedPlain(d, v) && HasRequired(v)
    ensures CreatedFrom(NewTicket(v, Some(requester), id, now), data, requester, id, now)
  {
    assert SuppliedIn(data, v, Name) by { SuppliedField(Name, data, d, v); }
    assert SuppliedIn(data, v, Description) by { SuppliedField(Description, data, d, v); }
    assert SourceIn(data, v) by { SourceField(data, d, v); }
    assert DefaultedIn(data, v, Status, CreateDefaultStatus) by {
      DefaultStatusTrimmed();
      DefaultedField(Status, data, d[FieldKey(Status)], v[Status], CreateDefaultStatus);
    }
    assert DefaultedIn(data, v, Priority, CreateDefaultPriority) by {
      DefaultPriorityTrimmed();
      DefaultedField(Priority, data, d[FieldKey(Priority)], v[Priority], CreateDefaultPriority);
    }
    assert PhoneIn(data, v) by { PhoneField(data, d, v); }
    CreatedFromValues(data, v, requester, id, now);
  }

  /** Validated field `f` is the supplied string, trimmed. */
  predicate SuppliedIn(data: Data, v: Cleaned, f: Field) {
    FieldKey(f) in data && data[FieldKey(f)].Str? && f in v && v[f].Some? && v[f].value == Supplied(data, f)
  }

  /** Validated `source` is the supplied string lower-cased and trimmed. */
  predicate SourceIn(data: Data, v: Cleaned) {
    && FieldKey(Source) in data && data[FieldKey(Source)].Str? && Source in v && v[Source].Some?
    && v[Source].value == Strip(Lower(data[FieldKey(Source)].s)) && NoUpper(v[Source].value)
  }

  /** Validated field `f` is the supplied string trimmed, or `default`. */
  predicate DefaultedIn(data: Data, v: Cleaned, f: Field, default: string) {
    && f in v && v[f].Some?
    && if FieldKey(f) in data then data[FieldKey(f)].Str? && v[f].value == Supplied(data, f) else v[f].value == default
  }

  /** Validated `phone_number` is present exactly when supplied, cleaned. */
  predicate PhoneIn(data: Data, v: Cleaned) {
    && (PhoneNumber in v <==> FieldKey(PhoneNumber) in data)
    && (PhoneNumber in v ==> v[PhoneNumber] == CleanValue(PhoneNumber, data[FieldKey(PhoneNumber)]))
  }

  /** A required field the create view passes through: stored as supplied,
      trimmed. */
  lemma SuppliedField(f: Field, data: Data, d: Data, v: Cleaned)
    requires f == Name || f == Description
    requires KeptAsIs(data, d, f) && CleanedFrom(d, v, f) && f in v && v[f].Some?
    ensures SuppliedIn(data, v, f)
  {
  }

  /** `source` as the create view stores it: lower-cased and trimmed. */
  lemma SourceField(data: Data, d: Data, v: Cleaned)
    requires FieldKey(Source) in d <==> FieldKey(Source) in data
    requires FieldKey(Source) in d ==> data[FieldKey(Source)].Str? && d[FieldKey(Source)] == Str(Lower(data[FieldKey(Source)].s))
    requires CleanedFrom(d, v, Source) && Source in v && v[Source].Some?
    ensures SourceIn(data, v)
  {
    StrippedLowerHasNoUpper(data[FieldKey(Source)].s);
  }

  /** `phone_number`: absent stays absent, supplied is cleaned. */
  lemma PhoneField(data: Data, d: Data, v: Cleaned)
    requires KeptAsIs(data, d, PhoneNumber) && CleanedFrom(d, v, PhoneNumber)
    ensures PhoneIn(data, v)
  {
  }

  /** The saved ticket from the validated values alone. */
  lemma CreatedFromValues(data: Data, v: Cleaned, requester: UserId, id: nat, now: int)
    requires HasRequired(v)
    requires SuppliedIn(data, v, Name) && SuppliedIn(data, v, Description) && SourceIn(data, v)
    requires DefaultedIn(data, v, Status, CreateDefaultStatus) && DefaultedIn(data, v, Priority, CreateDefaultPriority)
    requires PhoneIn(data, v)
    ensures CreatedFrom(NewTicket(v, Some(requester), id, now), data, requester, id, now)
  {
  }

  /** A create request succeeds exactly when `source` is not null and the
      normalised body passes a full validation. */
  lemma CreateSucceedsIff(tickets: seq<Ticket>, data: Data, requester: UserId, users: set<UserId>, id: nat, now: int)
    requires IdFree(tickets, id)
    ensures Create(tickets, data, requester, users, id, now).reply.Ok? <==>
              && NormalizeForCreate(data).Ok?
              && Acceptable(NormalizeForCreate(data).value, false, users)
  {
    if NormalizeForCreate(data).Ok? {
      ValidateAcceptsExactly(NormalizeForCreate(data).value, false, users);
    }
  }

  /** A body without `description` and `source` is refused with an error
      under each of those two names. */
  lemma CreateReportsMissingFields(tickets: seq<Ticket>, data: Data, requester: UserId, users: set<UserId>, id: nat, now: int)
    requires IdFree(tickets, id)
    requires FieldKey(Description) !in data && FieldKey(Source) !in data
    ensures var r := Create(tickets, data, requester, users, id, now);
      && r.tickets == tickets
      && r.reply.Err? && r.reply.error.Invalid?
      && Description in r.reply.error.errors && r.reply.error.errors[Description] == Required
      && Source in r.reply.error.errors && r.reply.error.errors[Source] == Required
  {
    var d := NormalizeForCreate(data).value;
    assert FieldKey(Description) !in d && FieldKey(Source) !in d;
  }

  /** A name shorter than three characters after trimming is refused with a
      `TooShort(3)` error on `name`, and nothing is stored. */
  lemma CreateRejectsShortName(tickets: seq<Ticket>, data: Data, requester: UserId, users: set<UserId>, id: nat, now: int)
    requires IdFree(tickets, id)
    requires NormalizeForCreate(data).Ok?
    requires FieldKey(Name) in data && data[FieldKey(Name)].Str?
    requires 0 < |Strip(data[FieldKey(Name)].s)| < NameMinLength
    ensures var r := Create(tickets, data, requester, users, id, now);
      && r.tickets == tickets
      && r.reply.Err? && r.reply.error.Invalid?
      && Name in r.reply.error.errors && r.reply.error.errors[Name] == TooShort(NameMinLength)
  {
    var d := NormalizeForCreate(data).value;
    assert d[FieldKey(Name)] == data[FieldKey(Name)];
    CleanFieldCases(Name, d, false, users);
    assert CleanField(Name, d, false, users) == Reject(TooShort(NameMinLength));
  }

  /** Without a `status` or `priority` in the body the ticket gets the view's
      defaults "open" and "medium", never the column defaults "new" and
      "low". */
  lemma CreateBypassesModelDefaults(tickets: seq<Ticket>, data: Data, requester: UserId, users: set<UserId>, id: nat, now: int)
    requires IdFree(tickets, id)
    requires FieldKey(Status) !in data && FieldKey(Priority) !in data
    requires Create(tickets, data, requester, users, id, now).reply.Ok?
    ensures var t := Create(tickets, data, requester, users, id, now).reply.value;
      && t.status == "open" && t.status != ModelDefaultStatus
      && t.priority == "medium" && t.priority != ModelDefaultPriority
  {
    var t := Create(tickets, data, requester, users, id, now).reply.value;
    assert StatusFrom(t, data) && PriorityFrom(t, data);
  }

  // ---------------------------------------------------------------------------
  // UpdateTicketAPIView
  // ---------------------------------------------------------------------------

  /** `d` holds field `f` of `data` lower-cased when present. */
  predicate LoweredIn(data: Data, d: Data, f: Field) {
    && (FieldKey(f) in d <==> FieldKey(f) in data)
    && (FieldKey(f) in d ==> data[FieldKey(f)].Str? && d[FieldKey(f)] == Str(Lower(data[FieldKey(f)].s)))
  }

  /** Some of `source`, `status`, `priority` is present and null. */
  predicate NullCaseField(data: Data) {
    || (FieldKey(Source) in data && data[FieldKey(Source)].Null?)
    || (FieldKey(Status) in data && data[FieldKey(Status)].Null?)
    || (FieldKey(Priority) in data && data[FieldKey(Priority)].Null?)
  }

  /** The update view's edits of the request copy: lower-case `source`,
      `status` and `priority`, each only when present; no key is added. */
  function NormalizeForUpdate(data: Data): (r: Result<Data, ErrorReport>)
    ensures r.Err? <==> NullCaseField(data)
    ensures r.Err? ==> r.error == NotAString
    ensures r.Ok? ==> r.value.Keys == data.Keys
    ensures r.Ok? ==> LoweredIn(data, r.value, Source) && LoweredIn(data, r.value, Status) && LoweredIn(data, r.value, Priority)
    ensures r.Ok? ==> forall k :: k in data && k !in {FieldKey(Source), FieldKey(Status), FieldKey(Priority)} ==> r.value[k] == data[k]
  {
    match LowerKey(data, Source)
    case Err(e) => Err(e)
    case Ok(d1) =>
      match LowerKey(d1, Status)
      case Err(e) => Err(e)
      case Ok(d2) => LowerKey(d2, Priority)
  }

  /** The position of the ticket with key `id`, as `get_object()` finds it. */
  function IndexOf(tickets: seq<Ticket>, id: nat): (r: Option<nat>)
    ensures r.None? <==> forall j :: 0 <= j < |tickets| ==> tickets[j].id != id
    ensures r.Some? ==> r.value < |tickets| && tickets[r.value].id == id
    ensures r.Some? ==> forall j :: 0 <= j < r.value ==> tickets[j].id != id
    decreases |tickets|
  {
    if tickets == [] then None
    else if tickets[0].id == id then Some(0)
    else match IndexOf(tickets[1..], id)
      case None => None
      case Some(i) => Some(i + 1)
  }

  /** A text field after an update: the supplied string trimmed (and
      lower-cased if the view folds that field), or the old value. */
  predicate TextPatched(before: string, after: string, data: Data, f: Field, folded: bool) {
    if FieldKey(f) in data then
      data[FieldKey(f)].Str? && after == Strip(if folded then Lower(data[FieldKey(f)].s) else data[FieldKey(f)].s)
    else after == before
  }

  /** A nullable field after an update: the supplied value cleaned, or the
      old value. */
  predicate NullablePatched(before: Option<string>, after: Option<string>, data: Data, f: Field) {
    if FieldKey(f) in data then after == CleanValue(f, data[FieldKey(f)]) else after == before
  }

  /** What an updated ticket holds: supplied fields replaced, `source`,
      `status`, `priority` lower-cased, every other field as it was, the key
      and creation time kept and the update time stamped. */
  predicate PatchedFrom(before: Ticket, u: Ticket, data: Data, now: int) {
    && u.id == before.id && u.createdAt == before.createdAt && u.updatedAt == now
    && TextPatched(before.name, u.name, data, Name, false)
    && TextPatched(before.description, u.description, data, Description, false)
    && TextPatched(before.source, u.source, data, Source, true)
    && TextPatched(before.status, u.status, data, Status, true)
    && TextPatched(before.priority, u.priority, data, Priority, true)
    && NullablePatched(before.owner, u.owner, data, Owner)
    && NullablePatched(before.phoneNumber, u.phoneNumber, data, PhoneNumber)
  }

  /** The update view on the ticket with key `id`; `partial` is the PATCH
      flag, false unless the caller sets it. */
  function Update(tickets: seq<Ticket>, id: nat, data: Data, partial: bool, users: set<UserId>, now: int): (r: Step)
    ensures r.reply.Err? ==> r.tickets == tickets
    ensures IndexOf(tickets, id).None? ==> r.reply == Err(TicketNotFound)
    ensures IndexOf(tickets, id).Some? && NullCaseField(data) ==> r.reply == Err(NotAString)
    ensures r.reply.Ok? ==> IndexOf(tickets, id).Some?
    ensures r.reply.Ok? ==> var i := IndexOf(tickets, id).value;
              && r.tickets == tickets[i := r.reply.value]
              && PatchedFrom(tickets[i], r.reply.value, data, now)
              && (WellFormed(tickets[i]) ==> WellFormed(r.reply.value))
    ensures IndexOf(tickets, id).Some? && !NullCaseField(data) && !partial ==>
              forall f :: IsRequired(f) && FieldKey(f) !in data ==>
                r.reply.Err? && r.reply.error.Invalid? && f in r.reply.error.errors && r.reply.error.errors[f] == Required
    ensures IndexOf(tickets, id).Some? && NormalizeForUpdate(data).Ok? && Validate(NormalizeForUpdate(data).value, partial, users).Err? ==>
              r.reply == Err(Invalid(Validate(NormalizeForUpdate(data).value, partial, users).error))
    ensures r.reply.Err? && r.reply.error.Invalid? ==>
              && NormalizeForUpdate(data).Ok?
              && forall f: Field :: f in r.reply.error.errors <==> Fails(f, NormalizeForUpdate(data).value, partial, users)
  {
    match IndexOf(tickets, id)
    case None => Step(tickets, Err(TicketNotFound))
    case Some(i) =>
      match NormalizeForUpdate(data)
      case Err(e) => Step(tickets, Err(e))
      case Ok(d) =>
        assert forall f: Field :: FieldKey(f) in d <==> FieldKey(f) in data;
        match Validate(d, partial, users)
        case Err(errors) => Step(tickets, Err(Invalid(errors)))
        case Ok(v) =>
          var u := ApplyTo(tickets[i], v, now);
          ApplyToKeepsWellFormed(tickets[i], d, partial, users, now);
          PatchedFromNormalized(tickets[i], data, d, v, partial, users, now);
          Step(tickets[i := u], Ok(u))
  }

  lemma ApplyToKeepsWellFormed(t: Ticket, d: Data, partial: bool, users: set<UserId>, now: int)
    requires Validate(d, partial, users).Ok?
    ensures WellFormed(t) ==> WellFormed(ApplyTo(t, Validate(d, partial, users).value, now))
  {
    if WellFormed(t) {
      ApplyToPreservesWellFormed(t, d, partial, users, now);
    }
  }

  lemma PatchedFromNormalized(before: Ticket, data: Data, d: Data, v: Cleaned, partial: bool, users: set<UserId>, now: int)
    requires NormalizeForUpdate(data) == Ok(d)
    requires Validate(d, partial, users) == Ok(v)
    ensures PatchedFrom(before, ApplyTo(before, v, now), data, now)
  {
    UpdateNormalizedFacts(data, d);
    ValidatedFacts(d, v, partial, users);
    PatchedFromFacts(before, data, d, v, now);
  }

  predicate UpdateNormalizedPlain(data: Data, d: Data) {
    && KeptAsIs(data, d, Name) && KeptAsIs(data, d, Description)
    && KeptAsIs(data, d, Owner) && KeptAsIs(data, d, PhoneNumber)
    && LoweredIn(data, d, Source) && LoweredIn(data, d, Status) && LoweredIn(data, d, Priority)
  }

  lemma UpdateNormalizedFacts(data: Data, d: Data)
    requires NormalizeForUpdate(data) == Ok(d)
    ensures UpdateNormalizedPlain(data, d)
  {
  }

  lemma PatchedFromFacts(before: Ticket, data: Data, d: Data, v: Cleaned, now: int)
    requires UpdateNormalizedPlain(data, d) && ValidatedPlain(d, v)
    ensures PatchedFrom(before, ApplyTo(before, v, now), data, now)
  {
    var u := ApplyTo(before, v, now);
    TextFieldPatched(before.name, data, d, v, Name, false);
    TextFieldPatched(before.description, data, d, v, Description, false);
    TextFieldPatched(before.source, data, d, v, Source, true);
    TextFieldPatched(before.status, data, d, v, Status, true);
    TextFieldPatched(before.priority, data, d, v, Priority, true);
    assert NullablePatched(before.owner, u.owner, data, Owner);
    assert NullablePatched(before.phoneNumber, u.phoneNumber, data, PhoneNumber);
  }

  /** One non-nullable text field through normalisation, validation and
      `ApplyTo`. */
  lemma TextFieldPatched(before: string, data: Data, d: Data, v: Cleaned, f: Field, folded: bool)
    requires f != Owner && f != PhoneNumber
    requires if folded then LoweredIn(data, d, f) else KeptAsIs(data, d, f)
    requires CleanedFrom(d, v, f) && (f in v ==> MeetsRule(RuleOf(f), v[f]))
    ensures TextPatched(before, if f in v && v[f].Some? then v[f].value else before, data, f, folded)
  {
  }

  /** A partial update that supplies only an acceptable `status` changes
      only `status`, which is stored trimmed and lower-cased, and the update
      time. */
  lemma UpdateOnlyStatus(tickets: seq<Ticket>, id: nat, s: string, users: set<UserId>, now: int)
    requires IndexOf(tickets, id).Some?
    requires 0 < |Strip(Lower(s))| <= ShortMaxLength && NulChar !in Strip(Lower(s))
    ensures var r := Update(tickets, id, map[FieldKey(Status) := Str(s)], true, users, now);
      var i := IndexOf(tickets, id).value;
      && r.reply.Ok?
      && r.reply.value == tickets[i].(status := Strip(Lower(s)), updatedAt := now)
  {
    var data := map[FieldKey(Status) := Str(s)];
    StatusOnlyAccepted(s, users);
    var r := Update(tickets, id, data, true, users, now);
    var i := IndexOf(tickets, id).value;
    assert PatchedFrom(tickets[i], r.reply.value, data, now);
  }

  /** The normalised body `{status: s}` passes a partial validation. */
  lemma StatusOnlyAccepted(s: string, users: set<UserId>)
    requires 0 < |Strip(Lower(s))| <= ShortMaxLength && NulChar !in Strip(Lower(s))
    ensures NormalizeForUpdate(map[FieldKey(Status) := Str(s)]).Ok?
    ensures Validate(NormalizeForUpdate(map[FieldKey(Status) := Str(s)]).value, true, users).Ok?
  {
    StatusOnlyNormalized(s);
    StripIdempotent(Lower(s));
    SingleStatusAcceptable(Lower(s), users);
    ValidateAcceptsExactly(map[FieldKey(Status) := Str(Lower(s))], true, users);
  }

  lemma StatusOnlyNormalized(s: string)
    ensures NormalizeForUpdate(map[FieldKey(Status) := Str(s)]) == Ok(map[FieldKey(Status) := Str(Lower(s))])
  {
    var data := map[FieldKey(Status) := Str(s)];
    var d := NormalizeForUpdate(data).value;
    var e := map[FieldKey(Status) := Str(Lower(s))];
    assert d.Keys == {FieldKey(Status)} == e.Keys;
    assert d[FieldKey(Status)] == Str(Lower(s));
    assert d == e;
  }

  lemma SingleStatusAcceptable(x: string, users: set<UserId>)
    requires MeetsRule(RuleOf(Status), Some(Strip(x)))
    ensures Acceptable(map[FieldKey(Status) := Str(x)], true, users)
  {
    var d := map[FieldKey(Status) := Str(x)];
    forall f: Field
      ensures && (FieldKey(f) in d ==> AcceptableValue(f, d[FieldKey(f)], users))
              && (FieldKey(f) !in d ==> true || !IsRequired(f))
    {
    }
  }

  /** An update succeeds exactly when the ticket exists, no lower-cased
      field is null and the normalised body passes the (full or partial)
      validation. */
  lemma UpdateSucceedsIff(tickets: seq<Ticket>, id: nat, data: Data, partial: bool, users: set<UserId>, now: int)
    ensures Update(tickets, id, data, partial, users, now).reply.Ok? <==>
              && IndexOf(tickets, id).Some?
              && NormalizeForUpdate(data).Ok?
              && Acceptable(NormalizeForUpdate(data).value, partial, users)
  {
    if IndexOf(tickets, id).Some? && NormalizeForUpdate(data).Ok? {
      ValidateAcceptsExactly(NormalizeForUpdate(data).value, partial, users);
    }
  }

  /** Creating under a fresh key and updating both keep the keys distinct,
      so `get_object()` never has two candidates. */
  lemma CreateKeepsIdsUnique(tickets: seq<Ticket>, data: Data, requester: UserId, users: set<UserId>, id: nat, now: int)
    requires IdsUnique(tickets) && IdFree(tickets, id)
    ensures IdsUnique(Create(tickets, data, requester, users, id, now).tickets)
  {
    var r := Create(tickets, data, requester, users, id, now);
    if r.reply.Ok? {
      assert r.reply.value.id == id;
      AppendFreshKeepsIdsUnique(tickets, r.reply.value);
    }
  }

  lemma AppendFreshKeepsIdsUnique(tickets: seq<Ticket>, t: Ticket)
    requires IdsUnique(tickets) && IdFree(tickets, t.id)
    ensures IdsUnique(tickets + [t])
  {
  }

  lemma UpdateKeepsIdsUnique(tickets: seq<Ticket>, id: nat, data: Data, partial: bool, users: set<UserId>, now: int)
    requires IdsUnique(tickets)
    ensures IdsUnique(Update(tickets, id, data, partial, users, now).tickets)
  {
    var r := Update(tickets, id, data, partial, users, now);
    if r.reply.Ok? {
      var i := IndexOf(tickets, id).value;
      ReplaceKeepsIdsUnique(tickets, i, r.reply.value);
    }
  }

  lemma ReplaceKeepsIdsUnique(tickets: seq<Ticket>, i: nat, u: Ticket)
    requires IdsUnique(tickets) && i < |tickets| && u.id == tickets[i].id
    ensures IdsUnique(tickets[i := u])
  {
    assert forall j :: 0 <= j < |tickets| ==> tickets[i := u][j].id == tickets[j].id;
  }

  // ---------------------------------------------------------------------------
  // TicketListAPIView
  // ---------------------------------------------------------------------------

  /** The optional query parameters `status`, `owner` and `priority`. */
  datatype Query = Query(status: Option<string>, owner: Option<UserId>, priority: Option<string>)

  /** `status__iexact`, `owner_id` and `priority__iexact`, each only when the
      parameter is given. */
  predicate Matches(t: Ticket, q: Query)
    ensures q == Query(None, None, None) ==> Matches(t, q)
    ensures Matches(t, q) && q.owner.Some? ==> t.owner == q.owner
    ensures q.status.Some? && !EqualIgnoringCase(t.status, q.status.value) ==> !Matches(t, q)
    ensures q.priority.Some? && !EqualIgnoringCase(t.priority, q.priority.value) ==> !Matches(t, q)
  {
    && (q.status.Some? ==> EqualIgnoringCase(t.status, q.status.value))
    && (q.owner.Some? ==> t.owner == Some(q.owner.value))
    && (q.priority.Some? ==> EqualIgnoringCase(t.priority, q.priority.value))
  }

  /** The three query parameters narrow the list independently, like the
      chained `filter()` calls: a ticket matches a query exactly when it
      matches each parameter on its own. */
  lemma MatchesEachParameter(t: Ticket, q: Query)
    ensures Matches(t, q) <==>
      && Matches(t, Query(q.status, None, None))
      && Matches(t, Query(None, q.owner, None))
      && Matches(t, Query(None, None, q.priority))
  {
  }

  /** The matching tickets, each as often as in `s`, in their order. */
  function Filter(s: seq<Ticket>, q: Query): (r: seq<Ticket>)
    ensures forall t :: multiset(r)[t] == if Matches(t, q) then multiset(s)[t] else 0
    decreases |s|
  {
    if s == [] then []
    else
      var rest := Filter(s[..|s| - 1], q);
      assert s == s[..|s| - 1] + [s[|s| - 1]];
      if Matches(s[|s| - 1], q) then rest + [s[|s| - 1]] else rest
  }

  /** `order_by('-created_at')`. */
  predicate NewestFirst(s: seq<Ticket>) {
    forall i, j :: 0 <= i < j < |s| ==> s[i].createdAt >= s[j].createdAt
  }

  /** Inserts `t` into a newest-first sequence. */
  function Insert(t: Ticket, s: seq<Ticket>): (r: seq<Ticket>)
    requires NewestFirst(s)
    ensures NewestFirst(r)
    ensures multiset(r) == multiset(s) + multiset{t}
    ensures |r| == |s| + 1
    ensures r[0] == t || (s != [] && r[0] == s[0])
    decreases |s|
  {
    if s == [] || t.createdAt >= s[0].createdAt then [t] + s
    else
      var rest := Insert(t, s[1..]);
      assert s == [s[0]] + s[1..];
      [s[0]] + rest
  }

  /** Sorts newest first, keeping every ticket. */
  function SortNewestFirst(s: seq<Ticket>): (r: seq<Ticket>)
    ensures NewestFirst(r)
    ensures multiset(r) == multiset(s)
    decreases |s|
  {
    if s == [] then []
    else
      assert s == [s[0]] + s[1..];
      Insert(s[0], SortNewestFirst(s[1..]))
  }

  /** `get_queryset()`: the matching tickets, newest first. */
  function List(tickets: seq<Ticket>, q: Query): (r: seq<Ticket>)
    ensures NewestFirst(r)
    ensures forall t :: multiset(r)[t] == if Matches(t, q) then multiset(tickets)[t] else 0
  {
    SortNewestFirst(Filter(tickets, q))
  }

  /** A ticket is listed exactly when it is stored and matches every given
      parameter; with no parameters every ticket is listed. */
  lemma ListMembership(tickets: seq<Ticket>, q: Query, t: Ticket)
    ensures t in List(tickets, q) <==> t in tickets && Matches(t, q)
    ensures q == Query(None, None, None) ==> multiset(List(tickets, q)) == multiset(tickets)
  {
    var r := List(tickets, q);
    assert t in r <==> multiset(r)[t] > 0;
    assert t in tickets <==> multiset(tickets)[t] > 0;
    if q == Query(None, None, None) {
      assert forall x :: multiset(r)[x] == multiset(tickets)[x];
    }
  }

  /** The status and priority filters ignore case on both sides. */
  lemma ListIgnoresCase(tickets: seq<Ticket>, s1: string, s2: string, owner: Option<UserId>, p1: string, p2: string)
    requires EqualIgnoringCase(s1, s2) && EqualIgnoringCase(p1, p2)
    ensures List(tickets, Query(Some(s1), owner, Some(p1))) == List(tickets, Query(Some(s2), owner, Some(p2)))
  {
    assert forall t :: Matches(t, Query(Some(s1), owner, Some(p1))) == Matches(t, Query(Some(s2), owner, Some(p2)));
    FilterAgrees(tickets, Query(Some(s1), owner, Some(p1)), Query(Some(s2), owner, Some(p2)));
  }

  lemma {:induction false} FilterAgrees(s: seq<Ticket>, q1: Query, q2: Query)
    requires forall t :: Matches(t, q1) == Matches(t, q2)
    ensures Filter(s, q1) == Filter(s, q2)
    decreases |s|
  {
    if s != [] {
      FilterAgrees(s[..|s| - 1], q1, q2);
    }
  }
}
