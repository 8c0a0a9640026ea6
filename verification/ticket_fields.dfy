/** The `Ticket` model of crm/ticket/models.py and the field-level validation
    `TicketSerializer` (crm/ticket/serializers.py) derives from it: which
    fields are writable, required, nullable or may be blank, their length
    limits, and the values a validated request carries. */
module TicketFields {
  import opened Results
  import opened Text

  /** A user's primary key, as the request spells it. */
  type UserId = string

  /** A stored ticket. `owner` and `phoneNumber` are the two nullable columns. */
  datatype Ticket = Ticket(
    id: nat,
    name: string,
    description: string,
    status: string,
    source: string,
    priority: string,
    owner: Option<UserId>,
    phoneNumber: Option<string>,
    createdAt: int,
    updatedAt: int)

  const NameMinLength: nat := 3
  const NameMaxLength: nat := 255
  /** `max_length` of `status`, `source`, `priority` and `phone_number`. */
  const ShortMaxLength: nat := 20

  /** Column defaults, used when the saved data carries no value. */
  const ModelDefaultStatus: string := "new"
  const ModelDefaultPriority: string := "low"

  /** A value of the request's JSON body: a string or `null`. */
  datatype Value = Str(s: string) | Null

  /** The writable fields of the serializer; `id`, `created_at` and
      `updated_at` are read-only and never read from the request. */
  datatype Field = Name | Description | Status | Source | Priority | Owner | PhoneNumber

  const AllFields: set<Field> := {Name, Description, Status, Source, Priority, Owner, PhoneNumber}

  /** The name a field has in the request body and in the error mapping. */
  function FieldName(f: Field): string {
    match f
    case Name => "name"
    case Description => "description"
    case Status => "status"
    case Source => "source"
    case Priority => "priority"
    case Owner => "owner"
    case PhoneNumber => "phone_number"
  }

  /** A key of the request body: one of the writable fields, or any other
      name, such as the read-only `id`, `created_at` and `updated_at`. */
  datatype Key = FieldKey(f: Field) | OtherKey(name: string)

  /** The request body. */
  type Data = map<Key, Value>

  /** The per-field error codes of the serializer. */
  datatype FieldError =
    | Required           // "This field is required."
    | MayNotBeNull       // "This field may not be null."
    | MayNotBeBlank      // "This field may not be blank."
    | TooLong(max: nat)  // "Ensure this field has no more than {max} characters."
    | TooShort(min: nat) // "Ensure this value has at least {min} characters ..."
    | NullCharacter      // "Null characters are not allowed."
    | UnknownUser        // "Invalid pk ... - object does not exist."

  type FieldErrors = map<Field, FieldError>

  /** `validated_data`: for each supplied writable field its cleaned value,
      `None` standing for `null`. */
  type Cleaned = map<Field, Option<string>>

  /** What the serializer derives for a character field from the model column
      and `extra_kwargs`. */
  datatype CharRule = CharRule(required: bool, allowBlank: bool, allowNull: bool, maxLength: Option<nat>, minLength: nat)

  /** The rule of every field but `owner`. */
  function RuleOf(f: Field): (rule: CharRule)
    requires f != Owner
  {
    match f
    case Name => CharRule(true, false, false, Some(NameMaxLength), NameMinLength)
    case Description => CharRule(true, false, false, None, 0)
    case Source => CharRule(true, false, false, Some(ShortMaxLength), 0)
    case Status => CharRule(false, false, false, Some(ShortMaxLength), 0)
    case Priority => CharRule(false, false, false, Some(ShortMaxLength), 0)
    case PhoneNumber => CharRule(false, true, true, Some(ShortMaxLength), 0)
  }

  /** `name`, `description` and `source`. */
  predicate IsRequired(f: Field) {
    f != Owner && RuleOf(f).required
  }

  /** The serializer's per-field outcome: the field is left out of
      `validated_data`, kept with a cleaned value, or rejected. */
  datatype Outcome = Skip | Keep(v: Option<string>) | Reject(e: FieldError)

  /** A character field: the empty-value checks, whitespace trimming, then the
      length validators. */
  function CleanChar(rule: CharRule, input: Option<Value>, partial: bool): Outcome {
    match input
    case None => if rule.required && !partial then Reject(Required) else Skip
    case Some(Null) => if rule.allowNull then Keep(None) else Reject(MayNotBeNull)
    case Some(Str(s)) => CleanText(rule, Strip(s))
  }

  /** U+0000, which every serializer character field refuses. */
  const NulChar: char := 0 as char

  /** A supplied string after trimming: the blank check, then the field's
      validators in their order (maximum length, minimum length, no U+0000).
      The serializer lists every failing validator; the first is reported. */
  function CleanText(rule: CharRule, t: string): Outcome {
    if t == [] then (if rule.allowBlank then Keep(Some([])) else Reject(MayNotBeBlank))
    else if rule.maxLength.Some? && |t| > rule.maxLength.value then Reject(TooLong(rule.maxLength.value))
    else if |t| < rule.minLength then Reject(TooShort(rule.minLength))
    else if NulChar in t then Reject(NullCharacter)
    else Keep(Some(t))
  }

  lemma CleanTextCases(rule: CharRule, t: string)
    requires Strip(t) == t
    ensures var o := CleanText(rule, t);
      && !o.Skip?
      && (o.Reject? <==> !MeetsRule(rule, Some(t)))
      && (o.Keep? ==> o.v == Some(t))
  {
  }

  /** `validate_phone_number`: the hook accepts every value unchanged. */
  function ValidatePhoneNumber(value: Option<string>): (r: Option<string>)
    ensures r == value
  {
    value
  }

  /** The `owner` foreign key: optional and nullable; an empty string reads
      as `null`; any other value must name an existing user. */
  function CleanOwner(input: Option<Value>, users: set<UserId>): (o: Outcome)
    ensures o.Skip? <==> input.None?
    ensures o == Keep(None) <==> input == Some(Null) || input == Some(Str([]))
    ensures o.Keep? && o.v.Some? ==> input == Some(Str(o.v.value)) && o.v.value in users
    ensures o.Reject? <==> input.Some? && input.value.Str? && input.value.s != [] && input.value.s !in users
    ensures o.Reject? ==> o.e == UnknownUser
  {
    match input
    case None => Skip
    case Some(Null) => Keep(None)
    case Some(Str(pk)) => if pk == [] then Keep(None) else if pk in users then Keep(Some(pk)) else Reject(UnknownUser)
  }

  function Lookup(data: Data, key: Key): Option<Value> {
    if key in data then Some(data[key]) else None
  }

  function CleanField(f: Field, data: Data, partial: bool, users: set<UserId>): Outcome {
    if f == Owner then CleanOwner(Lookup(data, FieldKey(f)), users)
    else
      var o := CleanChar(RuleOf(f), Lookup(data, FieldKey(f)), partial);
      if f == PhoneNumber && o.Keep? then Keep(ValidatePhoneNumber(o.v)) else o
  }

  /** A cleaned value of a character field meets its rule. */
  predicate MeetsRule(rule: CharRule, v: Option<string>) {
    match v
    case None => rule.allowNull
    case Some(s) =>
      && Strip(s) == s
      && (s == [] ==> rule.allowBlank)
      && (s != [] ==> rule.minLength <= |s| && (rule.maxLength.Some? ==> |s| <= rule.maxLength.value))
      && NulChar !in s
  }

  /** A supplied value the serializer accepts for a field. */
  predicate AcceptableValue(f: Field, v: Value, users: set<UserId>) {
    if f == Owner then v.Str? ==> v.s == [] || v.s in users
    else MeetsRule(RuleOf(f), CleanValue(f, v))
  }

  /** The request passes validation: every supplied field is acceptable, and
      for a full validation every required field is present. */
  predicate Acceptable(data: Data, partial: bool, users: set<UserId>) {
    forall f: Field ::
      && (FieldKey(f) in data ==> AcceptableValue(f, data[FieldKey(f)], users))
      && (FieldKey(f) !in data ==> partial || !IsRequired(f))
  }

  /** The cleaned value of a supplied character field: trimmed, or null. */
  function CleanCharValue(v: Value): Option<string> {
    match v
    case Null => None
    case Str(s) => Some(Strip(s))
  }

  /** The cleaned value the serializer keeps for a supplied field; for
      `owner` the empty string reads as null and a key is kept as given. */
  function CleanValue(f: Field, v: Value): Option<string> {
    if f != Owner then CleanCharValue(v)
    else match v
      case Null => None
      case Str(s) => if s == [] then None else Some(s)
  }

  /** The outcome of a character field, case by case. */
  lemma CleanCharCases(rule: CharRule, input: Option<Value>, partial: bool)
    ensures var o := CleanChar(rule, input, partial);
      && (o.Skip? <==> input.None? && (partial || !rule.required))
      && (input.None? ==> (o.Reject? <==> !partial && rule.required) && (o.Reject? ==> o.e == Required))
      && (o.Reject? && input.Some? <==> input.Some? && !MeetsRule(rule, CleanCharValue(input.value)))
      && (o.Keep? ==> input.Some? && o.v == CleanCharValue(input.value) && MeetsRule(rule, o.v))
  {
    match input
    case None =>
    case Some(Null) =>
    case Some(Str(s)) =>
      StripIdempotent(s);
      CleanTextCases(rule, Strip(s));
  }

  /** Every field outcome, for reasoning one field at a time. */
  lemma CleanFieldCases(f: Field, data: Data, partial: bool, users: set<UserId>)
    ensures var o := CleanField(f, data, partial, users);
      && (o.Skip? <==> FieldKey(f) !in data && (partial || !IsRequired(f)))
      && (FieldKey(f) !in data ==> (o.Reject? <==> !partial && IsRequired(f)) && (o.Reject? ==> o.e == Required))
      && (o.Reject? && FieldKey(f) in data <==> FieldKey(f) in data && !AcceptableValue(f, data[FieldKey(f)], users))
      && (o.Keep? ==> FieldKey(f) in data && o.v == CleanValue(f, data[FieldKey(f)]))
      && (o.Keep? && f != Owner ==> MeetsRule(RuleOf(f), o.v))
      && (o.Keep? && f == Owner && o.v.Some? ==> o.v.value in users)
  {
    if f != Owner {
      var input := Lookup(data, FieldKey(f));
      CleanCharCases(RuleOf(f), input, partial);
      var o := CleanChar(RuleOf(f), input, partial);
      assert CleanField(f, data, partial, users) == o;
      if FieldKey(f) in data {
        assert input == Some(data[FieldKey(f)]);
        assert CleanValue(f, data[FieldKey(f)]) == CleanCharValue(data[FieldKey(f)]);
      }
    }
  }

  /** A field fails validation: supplied with an unacceptable value, or
      missing while required by a full validation. */
  predicate Fails(f: Field, data: Data, partial: bool, users: set<UserId>) {
    if FieldKey(f) in data then !AcceptableValue(f, data[FieldKey(f)], users)
    else !partial && IsRequired(f)
  }

  /** The `errors` mapping: every rejected field with its error. */
  function ErrorsOf(data: Data, partial: bool, users: set<UserId>): (e: FieldErrors)
    ensures forall f: Field :: f in e <==> CleanField(f, data, partial, users).Reject?
    ensures forall f: Field :: f in e ==> e[f] == CleanField(f, data, partial, users).e
    ensures forall f: Field :: f in e <==> Fails(f, data, partial, users)
    ensures forall f: Field :: f in e && FieldKey(f) !in data ==> e[f] == Required
  {
    CleanFieldsFacts(data, partial, users);
    map f | f in AllFields && CleanField(f, data, partial, users).Reject? :: CleanField(f, data, partial, users).e
  }

  /** The `validated_data` mapping: every kept field with its cleaned value. */
  function CleanedOf(data: Data, partial: bool, users: set<UserId>): (v: Cleaned)
    ensures forall f: Field :: f in v <==> CleanField(f, data, partial, users).Keep?
    ensures forall f: Field :: f in v ==> v[f] == CleanField(f, data, partial, users).v
  {
    CleanFieldsFacts(data, partial, users);
    map f | f in AllFields && CleanField(f, data, partial, users).Keep? :: CleanField(f, data, partial, users).v
  }

  /** `serializer.is_valid()` followed by `validated_data` or `errors`. Only
      the writable fields are read: the read-only `id`, `created_at`,
      `updated_at` and unknown keys are ignored. */
  function Validate(data: Data, partial: bool, users: set<UserId>): (r: Result<Cleaned, FieldErrors>)
    ensures r.Ok? ==> forall f: Field :: f in r.value <==> FieldKey(f) in data
    ensures r.Ok? ==> forall f :: f in r.value ==> r.value[f] == CleanValue(f, data[FieldKey(f)])
    ensures r.Ok? ==> FieldsMeetRules(r.value)
    ensures r.Ok? && Owner in r.value && r.value[Owner].Some? ==> r.value[Owner].value in users
    ensures r.Ok? && !partial ==> HasRequired(r.value)
    ensures r.Err? ==> r.error != map[]
    ensures r.Err? ==> forall f: Field :: f in r.error <==> Fails(f, data, partial, users)
    ensures r.Err? ==> forall f: Field :: f in r.error && FieldKey(f) !in data ==> r.error[f] == Required
    ensures !partial ==> forall f :: IsRequired(f) && FieldKey(f) !in data ==> r.Err? && f in r.error && r.error[f] == Required
  {
    var errors := ErrorsOf(data, partial, users);
    MissingRequiredIsError(data, partial, users);
    if errors != map[] then Err(errors)
    else
      CleanedOfAccepted(data, partial, users);
      Ok(CleanedOf(data, partial, users))
  }

  /** A full validation reports every missing required field as `Required`. */
  lemma MissingRequiredIsError(data: Data, partial: bool, users: set<UserId>)
    ensures !partial ==> forall f :: IsRequired(f) && FieldKey(f) !in data ==>
              f in ErrorsOf(data, partial, users) && ErrorsOf(data, partial, users)[f] == Required
  {
    CleanFieldsFacts(data, partial, users);
  }

  /** When no field is rejected, the validated data holds exactly the
      supplied fields, cleaned, each meeting its rule. */
  lemma CleanedOfAccepted(data: Data, partial: bool, users: set<UserId>)
    requires ErrorsOf(data, partial, users) == map[]
    ensures var v := CleanedOf(data, partial, users);
      && (forall f: Field :: f in v <==> FieldKey(f) in data)
      && (forall f :: f in v ==> v[f] == CleanValue(f, data[FieldKey(f)]))
      && FieldsMeetRules(v)
      && (Owner in v && v[Owner].Some? ==> v[Owner].value in users)
      && (!partial ==> HasRequired(v))
  {
    NoneRejected(data, partial, users);
    CleanedOfKeys(data, partial, users);
    CleanedOfValues(data, partial, users);
    if !partial {
      CleanedOfRequired(data, users);
    }
  }

  lemma NoneRejected(data: Data, partial: bool, users: set<UserId>)
    requires ErrorsOf(data, partial, users) == map[]
    ensures forall f: Field :: !CleanField(f, data, partial, users).Reject?
  {
    assert forall f: Field :: f !in ErrorsOf(data, partial, users);
  }

  lemma CleanedOfKeys(data: Data, partial: bool, users: set<UserId>)
    requires forall f: Field :: !CleanField(f, data, partial, users).Reject?
    ensures forall f: Field :: f in CleanedOf(data, partial, users) <==> FieldKey(f) in data
  {
    CleanFieldsFacts(data, partial, users);
  }

  lemma CleanedOfValues(data: Data, partial: bool, users: set<UserId>)
    ensures var v := CleanedOf(data, partial, users);
      && (forall f :: f in v ==> FieldKey(f) in data && v[f] == CleanValue(f, data[FieldKey(f)]))
      && FieldsMeetRules(v)
      && (Owner in v && v[Owner].Some? ==> v[Owner].value in users)
  {
    CleanFieldsFacts(data, partial, users);
  }

  lemma CleanedOfRequired(data: Data, users: set<UserId>)
    requires !CleanField(Name, data, false, users).Reject?
    requires !CleanField(Description, data, false, users).Reject?
    requires !CleanField(Source, data, false, users).Reject?
    ensures HasRequired(CleanedOf(data, false, users))
  {
    RequiredKept(Name, data, users);
    RequiredKept(Description, data, users);
    RequiredKept(Source, data, users);
  }

  lemma RequiredKept(f: Field, data: Data, users: set<UserId>)
    requires IsRequired(f) && !CleanField(f, data, false, users).Reject?
    ensures f in CleanedOf(data, false, users) && CleanedOf(data, false, users)[f].Some?
  {
    CleanFieldCases(f, data, false, users);
  }

  lemma CleanFieldsFacts(data: Data, partial: bool, users: set<UserId>)
    ensures forall f: Field :: f in AllFields
    ensures forall f: Field {:trigger CleanField(f, data, partial, users)} ::
      var o := CleanField(f, data, partial, users);
      && (o.Skip? <==> FieldKey(f) !in data && (partial || !IsRequired(f)))
      && (FieldKey(f) !in data ==> (o.Reject? <==> !partial && IsRequired(f)) && (o.Reject? ==> o.e == Required))
      && (o.Reject? && FieldKey(f) in data <==> FieldKey(f) in data && !AcceptableValue(f, data[FieldKey(f)], users))
      && (o.Keep? ==> FieldKey(f) in data && o.v == CleanValue(f, data[FieldKey(f)]))
      && (o.Keep? && f != Owner ==> MeetsRule(RuleOf(f), o.v))
      && (o.Keep? && f == Owner && o.v.Some? ==> o.v.value in users)
  {
    forall f: Field ensures f in AllFields {
      match f
      case Name =>
      case Description =>
      case Status =>
      case Source =>
      case Priority =>
      case Owner =>
      case PhoneNumber =>
    }
    forall f: Field {
      CleanFieldCases(f, data, partial, users);
    }
  }

  /** `name`, `description` and `source` are present and not null. */
  predicate HasRequired(v: Cleaned) {
    && Name in v && v[Name].Some?
    && Description in v && v[Description].Some?
    && Source in v && v[Source].Some?
  }

  /** Validation succeeds exactly when the request is acceptable. */
  lemma ValidateAcceptsExactly(data: Data, partial: bool, users: set<UserId>)
    ensures Validate(data, partial, users).Ok? <==> Acceptable(data, partial, users)
  {
    CleanFieldsFacts(data, partial, users);
    var r := Validate(data, partial, users);
    if !Acceptable(data, partial, users) {
      var f: Field :| !(&& (FieldKey(f) in data ==> AcceptableValue(f, data[FieldKey(f)], users))
                        && (FieldKey(f) !in data ==> partial || !IsRequired(f)));
      assert CleanField(f, data, partial, users).Reject?;
    }
  }

  /** Only writable fields matter: two requests that agree on them validate
      alike, whatever their read-only or unknown keys hold. */
  lemma ValidateIgnoresReadOnly(d1: Data, d2: Data, partial: bool, users: set<UserId>)
    requires forall f: Field :: Lookup(d1, FieldKey(f)) == Lookup(d2, FieldKey(f))
    ensures Validate(d1, partial, users) == Validate(d2, partial, users)
  {
    assert forall f: Field :: CleanField(f, d1, partial, users) == CleanField(f, d2, partial, users);
    assert ErrorsOf(d1, partial, users) == ErrorsOf(d2, partial, users);
    assert CleanedOf(d1, partial, users) == CleanedOf(d2, partial, users);
  }

  // ---------------------------------------------------------------------------
  // Saving validated data
  // ---------------------------------------------------------------------------

  /** The column constraints every stored ticket meets. */
  predicate WellFormed(t: Ticket) {
    && NameMinLength <= |t.name| <= NameMaxLength
    && t.description != []
    && 0 < |t.status| <= ShortMaxLength
    && 0 < |t.source| <= ShortMaxLength
    && 0 < |t.priority| <= ShortMaxLength
    && (t.phoneNumber.Some? ==> |t.phoneNumber.value| <= ShortMaxLength)
  }

  /** `serializer.save(owner=owner)` creating a ticket: the validated values,
      with the `owner` keyword replacing whatever owner they hold, the column
      defaults for `status` and `priority` when absent, and the database's
      key and timestamps. */
  function NewTicket(v: Cleaned, owner: Option<UserId>, id: nat, now: int): (t: Ticket)
    requires HasRequired(v)
    ensures t.id == id && t.owner == owner && t.createdAt == now && t.updatedAt == now
    ensures Some(t.name) == v[Name] && Some(t.description) == v[Description] && Some(t.source) == v[Source]
    ensures Status in v && v[Status].Some? ==> Some(t.status) == v[Status]
    ensures Status !in v || v[Status].None? ==> t.status == "new"
    ensures Priority in v && v[Priority].Some? ==> Some(t.priority) == v[Priority]
    ensures Priority !in v || v[Priority].None? ==> t.priority == "low"
    ensures PhoneNumber in v ==> t.phoneNumber == v[PhoneNumber]
    ensures PhoneNumber !in v ==> t.phoneNumber.None?
  {
    Ticket(
      id := id,
      name := v[Name].value,
      description := v[Description].value,
      status := if Status in v && v[Status].Some? then v[Status].value else ModelDefaultStatus,
      source := v[Source].value,
      priority := if Priority in v && v[Priority].Some? then v[Priority].value else ModelDefaultPriority,
      owner := owner,
      phoneNumber := if PhoneNumber in v then v[PhoneNumber] else None,
      createdAt := now,
      updatedAt := now)
  }

  /** `serializer.save()` on an existing ticket: every field present in the
      validated data is overwritten, every other field keeps its value, and
      `updated_at` is stamped. */
  function ApplyTo(t: Ticket, v: Cleaned, now: int): (u: Ticket)
    ensures u.id == t.id && u.createdAt == t.createdAt && u.updatedAt == now
  {
    t.(
      name := if Name in v && v[Name].Some? then v[Name].value else t.name,
      description := if Description in v && v[Description].Some? then v[Description].value else t.description,
      status := if Status in v && v[Status].Some? then v[Status].value else t.status,
      source := if Source in v && v[Source].Some? then v[Source].value else t.source,
      priority := if Priority in v && v[Priority].Some? then v[Priority].value else t.priority,
      owner := if Owner in v then v[Owner] else t.owner,
      phoneNumber := if PhoneNumber in v then v[PhoneNumber] else t.phoneNumber,
      updatedAt := now)
  }

  /** The value a ticket holds for field `f`; a text column is never null. */
  function Get(t: Ticket, f: Field): Option<string> {
    match f
    case Name => Some(t.name)
    case Description => Some(t.description)
    case Status => Some(t.status)
    case Source => Some(t.source)
    case Priority => Some(t.priority)
    case Owner => t.owner
    case PhoneNumber => t.phoneNumber
  }

  /** `save()` overwrites exactly the fields present in the validated data
      (a null only where the column is nullable) and leaves the others. */
  lemma ApplyToTouchesOnlyGiven(t: Ticket, v: Cleaned, now: int)
    ensures forall f :: f !in v ==> Get(ApplyTo(t, v, now), f) == Get(t, f)
    ensures forall f :: f in v && (v[f].Some? || f == Owner || f == PhoneNumber) ==> Get(ApplyTo(t, v, now), f) == v[f]
  {
  }

  /** Every field present in validated data meets the column constraints
      that `WellFormed` asks of a stored ticket. */
  predicate FieldsMeetRules(v: Cleaned) {
    forall f :: f in v && f != Owner ==> MeetsRule(RuleOf(f), v[f])
  }

  /** A full validation yields data that saves as a well-formed ticket. */
  lemma NewTicketWellFormed(data: Data, users: set<UserId>, owner: Option<UserId>, id: nat, now: int)
    requires Validate(data, false, users).Ok?
    ensures WellFormed(NewTicket(Validate(data, false, users).value, owner, id, now))
  {
    var v := Validate(data, false, users).value;
    SavedFieldsWellFormed(v);
  }

  /** Validated data of either kind keeps a well-formed ticket well-formed. */
  lemma ApplyToPreservesWellFormed(t: Ticket, data: Data, partial: bool, users: set<UserId>, now: int)
    requires WellFormed(t) && Validate(data, partial, users).Ok?
    ensures WellFormed(ApplyTo(t, Validate(data, partial, users).value, now))
  {
    var v := Validate(data, partial, users).value;
    SavedFieldsWellFormed(v);
  }

  /** Field by field, what `MeetsRule` says of a validated value. */
  lemma SavedFieldsWellFormed(v: Cleaned)
    requires FieldsMeetRules(v)
    ensures Name in v && v[Name].Some? ==> NameMinLength <= |v[Name].value| <= NameMaxLength
    ensures Description in v && v[Description].Some? ==> v[Description].value != []
    ensures Status in v && v[Status].Some? ==> 0 < |v[Status].value| <= ShortMaxLength
    ensures Source in v && v[Source].Some? ==> 0 < |v[Source].value| <= ShortMaxLength
    ensures Priority in v && v[Priority].Some? ==> 0 < |v[Priority].value| <= ShortMaxLength
    ensures PhoneNumber in v && v[PhoneNumber].Some? ==> |v[PhoneNumber].value| <= ShortMaxLength
  {
    if Name in v { assert MeetsRule(RuleOf(Name), v[Name]); }
    if Description in v { assert MeetsRule(RuleOf(Description), v[Description]); }
    if Status in v { assert MeetsRule(RuleOf(Status), v[Status]); }
    if Source in v { assert MeetsRule(RuleOf(Source), v[Source]); }
    if Priority in v { assert MeetsRule(RuleOf(Priority), v[Priority]); }
    if PhoneNumber in v { assert MeetsRule(RuleOf(PhoneNumber), v[PhoneNumber]); }
  }
}
