/** The `VerificationCode` table of the password-reset flow: one record per
    issued code, the validity predicate, marking a record used, the lookup the
    consuming view performs, and issuing a fresh code for an email. The table
    is a sequence of records in insertion order; a record is named by its
    position. */
module VerificationCodes {
  import opened Results
  import opened Text

  /** `EXPIRATION_MINUTES`, and the same span in seconds, the model's unit of time. */
  const ExpirationMinutes: nat := 5
  const ExpirationSeconds: nat := ExpirationMinutes * 60

  /** `max_length` of the `code` column. */
  const CodeLength: nat := 6

  /** The closed range `random.randint` draws the numeric code from. */
  const LowestCode: nat := 100000
  const HighestCode: nat := 999999

  /** One row. The UUID primary key and the never-written `reset_token` column
      carry no behaviour and are not modelled. */
  datatype Record = Record(email: string, code: string, createdAt: int, isUsed: bool)

  type Store = seq<Record>

  /** A code as the `code` column expects it: six decimal digits. */
  predicate IsCodeString(c: string) {
    |c| == CodeLength && AllDigits(c)
  }

  // ---------------------------------------------------------------------------
  // is_valid and mark_as_used
  // ---------------------------------------------------------------------------

  /** `is_valid()` evaluated at instant `now`. */
  predicate IsValid(r: Record, now: int)
    ensures IsValid(r, now) <==> !r.isUsed && now - r.createdAt <= 5 * 60
  {
    if r.isUsed then false else now <= r.createdAt + ExpirationSeconds
  }

  /** A used record is never valid, at any instant. */
  lemma UsedIsNeverValid(r: Record, now: int)
    requires r.isUsed
    ensures !IsValid(r, now)
  {
  }

  /** An unused record is valid up to and including five minutes (300 s) after
      its creation, and invalid from the next second on. */
  lemma UnusedValidUntilDeadline(r: Record, now: int)
    requires !r.isUsed
    ensures IsValid(r, now) <==> now <= r.createdAt + 300
    ensures IsValid(r, r.createdAt + 300) && !IsValid(r, r.createdAt + 301)
  {
  }

  /** `mark_as_used()` on the record at position `i`. */
  function MarkAsUsed(s: Store, i: nat): (r: Store)
    requires i < |s|
    ensures |r| == |s| && r[i].isUsed
    ensures r[i].(isUsed := s[i].isUsed) == s[i]
    ensures forall j :: 0 <= j < |s| && j != i ==> r[j] == s[j]
  {
    s[i := s[i].(isUsed := true)]
  }

  /** Marking a record used twice is marking it once. */
  lemma MarkAsUsedIdempotent(s: Store, i: nat)
    requires i < |s|
    ensures MarkAsUsed(MarkAsUsed(s, i), i) == MarkAsUsed(s, i)
  {
  }

  /** `after` keeps every record of `before` in place, changing at most its
      `isUsed` flag and only from false to true; it may append records. No
      operation of the model moves a record back to unused. */
  predicate OnlyMarksUsed(before: Store, after: Store) {
    && |before| <= |after|
    && forall i :: 0 <= i < |before| ==>
         && after[i].(isUsed := before[i].isUsed) == before[i]
         && (before[i].isUsed ==> after[i].isUsed)
  }

  lemma OnlyMarksUsedTransitive(a: Store, b: Store, c: Store)
    requires OnlyMarksUsed(a, b) && OnlyMarksUsed(b, c)
    ensures OnlyMarksUsed(a, c)
  {
    forall i | 0 <= i < |a|
      ensures c[i].(isUsed := a[i].isUsed) == a[i]
    {
      assert c[i].(isUsed := b[i].isUsed) == b[i];
    }
  }

  lemma MarkAsUsedOnlyMarksUsed(s: Store, i: nat)
    requires i < |s|
    ensures OnlyMarksUsed(s, MarkAsUsed(s, i))
  {
  }

  // ---------------------------------------------------------------------------
  // Table invariants
  // ---------------------------------------------------------------------------

  /** The `unique=True` constraint on `code`: no two records, used or not,
      share a code. */
  predicate CodesUnique(s: Store) {
    forall i, j :: 0 <= i < j < |s| ==> s[i].code != s[j].code
  }

  predicate CodeTaken(s: Store, code: string) {
    exists i :: 0 <= i < |s| && s[i].code == code
  }

  /** Issuing supersedes: at most one unused record per email. */
  predicate AtMostOneUnusedPerEmail(s: Store) {
    forall i, j :: 0 <= i < j < |s| && s[i].email == s[j].email ==> s[i].isUsed || s[j].isUsed
  }

  predicate CodesWellFormed(s: Store) {
    forall i :: 0 <= i < |s| ==> IsCodeString(s[i].code)
  }

  predicate Invariant(s: Store) {
    CodesUnique(s) && AtMostOneUnusedPerEmail(s) && CodesWellFormed(s)
  }

  /** Marking any record used keeps every table invariant. */
  lemma MarkAsUsedPreservesInvariant(s: Store, i: nat)
    requires i < |s| && Invariant(s)
    ensures Invariant(MarkAsUsed(s, i))
  {
    var r := MarkAsUsed(s, i);
    assert forall j :: 0 <= j < |s| ==> r[j].code == s[j].code && r[j].email == s[j].email;
  }

  // ---------------------------------------------------------------------------
  // Lookup by code
  // ---------------------------------------------------------------------------

  predicate UnusedWithCode(r: Record, code: string) {
    r.code == code && !r.isUsed
  }

  /** `filter(code=code, is_used=False).order_by('-created_at').first()`:
      the position of a newest unused record carrying `code`, if any. */
  function LatestUnused(s: Store, code: string): (r: Option<nat>)
    ensures r.None? <==> forall i :: 0 <= i < |s| ==> !UnusedWithCode(s[i], code)
    ensures r.Some? ==> r.value < |s| && UnusedWithCode(s[r.value], code)
    ensures r.Some? ==> forall i :: 0 <= i < |s| && UnusedWithCode(s[i], code) ==>
                          s[i].createdAt <= s[r.value].createdAt
    decreases |s|
  {
    if s == [] then None
    else
      var best := LatestUnused(s[..|s| - 1], code);
      var last := s[|s| - 1];
      if UnusedWithCode(last, code) && (best.None? || s[best.value].createdAt < last.createdAt)
      then Some(|s| - 1)
      else best
  }

  /** Under the uniqueness constraint the lookup finds the one record that
      carries the code. */
  lemma LatestUnusedIsTheOnlyCarrier(s: Store, code: string)
    requires CodesUnique(s) && LatestUnused(s, code).Some?
    ensures forall i :: 0 <= i < |s| && s[i].code == code ==> i == LatestUnused(s, code).value
  {
  }

  // ---------------------------------------------------------------------------
  // generate_code
  // ---------------------------------------------------------------------------

  /** The bulk `filter(email=email).update(is_used=True)`. */
  function InvalidateFor(s: Store, email: string): (r: Store)
    ensures |r| == |s|
    ensures forall i :: 0 <= i < |s| && s[i].email == email ==> r[i] == s[i].(isUsed := true)
    ensures forall i :: 0 <= i < |s| && s[i].email != email ==> r[i] == s[i]
  {
    seq(|s|, i requires 0 <= i < |s| => if s[i].email == email then s[i].(isUsed := true) else s[i])
  }

  /** The table after `generate_code`, and whether the new record was inserted.
      `created` is false when the insert hit the uniqueness constraint; the
      invalidation that ran before it is kept (it is not in a transaction). */
  datatype Generated = Generated(store: Store, created: bool)

  /** `generate_code(email)` at instant `now`, with `n` the number
      `random.randint` drew. */
  function GenerateCode(s: Store, email: string, n: nat, now: int): (g: Generated)
    requires LowestCode <= n <= HighestCode
    ensures OnlyMarksUsed(s, g.store)
    ensures forall i :: 0 <= i < |s| && s[i].email == email ==> g.store[i].isUsed
    ensures forall i :: 0 <= i < |s| && s[i].email != email ==> g.store[i] == s[i]
    ensures g.created <==> !CodeTaken(s, Decimal(n))
    ensures |g.store| == if g.created then |s| + 1 else |s|
    ensures g.created ==> g.store[|s|] == Record(email, Decimal(n), now, false)
  {
    var invalidated := InvalidateFor(s, email);
    var code := Decimal(n);
    if CodeTaken(invalidated, code) then
      Generated(invalidated, false)
    else
      Generated(invalidated + [Record(email, code, now, false)], true)
  }

  /** The issued code is `str(n)`: six decimal digits without a leading zero,
      and it reads back as `n`. */
  lemma GeneratedCodeIsSixDigits(n: nat)
    requires LowestCode <= n <= HighestCode
    ensures IsCodeString(Decimal(n)) && Decimal(n)[0] != '0'
    ensures ParseDecimal(Decimal(n)) == n
  {
    assert Pow10(5) == 100000 && Pow10(6) == 1000000;
    DecimalLength(n, 6);
    ParseDecimalInvertsDecimal(n);
  }

  /** After a successful `generate_code(email)` the new record is unused and is
      the only unused record for that email. */
  lemma GenerateLeavesOneUnused(s: Store, email: string, n: nat, now: int)
    requires LowestCode <= n <= HighestCode
    requires GenerateCode(s, email, n, now).created
    ensures var t := GenerateCode(s, email, n, now).store;
      forall i :: 0 <= i < |t| && t[i].email == email ==> (!t[i].isUsed <==> i == |s|)
  {
  }

  /** `generate_code` keeps every table invariant, whether or not the insert
      succeeds. */
  lemma GeneratePreservesInvariant(s: Store, email: string, n: nat, now: int)
    requires LowestCode <= n <= HighestCode && Invariant(s)
    ensures Invariant(GenerateCode(s, email, n, now).store)
  {
    var g := GenerateCode(s, email, n, now);
    GeneratedCodeIsSixDigits(n);
    assert forall i :: 0 <= i < |s| ==> g.store[i].code == s[i].code && g.store[i].email == s[i].email;
  }
}
