/** The student schema: the field rules a student document must satisfy
    before it is written, and the defaults filled in for omitted optional
    fields. The nested object keeps the schema's own spelling, `schlarship`. */
module StudentSchema {
  import opened Wrappers

  const NameMinLength: nat := 2
  const DefaultAge: int := 18
  const MinAge: int := 0
  const Majors: seq<string> := ["Chemistry", "Computer Science", "Finance", "English", "Math", "undecided"]
  const DefaultMerit: int := 0
  const MinMerit: int := 0
  const MaxMerit: int := 5000
  const DefaultOther: int := 0
  const MinOther: int := 0

  datatype Scholarship = Scholarship(merit: int, other: int)

  /** A student document as persisted (its id is the store's key). */
  datatype Record = Record(name: string, age: int, major: string, schlarship: Scholarship)

  /** The request body fields, each possibly absent. */
  datatype Candidate = Candidate(
    name: Option<string>,
    age: Option<int>,
    major: Option<string>,
    merit: Option<int>,
    other: Option<int>)

  /** The schema paths that carry validators. */
  datatype Field = NamePath | AgePath | MajorPath | MeritPath | OtherPath

  datatype Rule = Required | MinLength(length: nat) | Min(lower: int) | Max(upper: int) | Enum

  datatype Violation = Violation(field: Field, rule: Rule)

  /** The length JavaScript reports for a string: UTF-16 code units, so a
      character outside the Basic Multilingual Plane counts twice. */
  function Utf16Length(s: string): (n: nat)
    ensures |s| <= n <= 2 * |s|
    ensures n == 0 <==> s == ""
  {
    if s == [] then 0
    else (if s[0] as int >= 0x1_0000 then 2 else 1) + Utf16Length(s[1..])
  }

  /** Every field rule of the schema holds of the record. */
  predicate Valid(r: Record) {
    && Utf16Length(r.name) >= NameMinLength
    && r.age >= MinAge
    && r.major in Majors
    && MinMerit <= r.schlarship.merit <= MaxMerit
    && r.schlarship.other >= MinOther
  }

  /** The candidate meets every rule, with omitted optional fields allowed. */
  predicate Admissible(c: Candidate) {
    && c.name.Some? && Utf16Length(c.name.value) >= NameMinLength
    && (c.age.Some? ==> c.age.value >= MinAge)
    && c.major.Some? && c.major.value in Majors
    && (c.merit.Some? ==> MinMerit <= c.merit.value <= MaxMerit)
    && (c.other.Some? ==> c.other.value >= MinOther)
  }

  /** The record keeps every supplied field and holds the default exactly
      where an optional field was omitted. */
  predicate Fills(c: Candidate, r: Record) {
    && c.name == Some(r.name)
    && (if c.age.Some? then r.age == c.age.value else r.age == DefaultAge)
    && c.major == Some(r.major)
    && (if c.merit.Some? then r.schlarship.merit == c.merit.value else r.schlarship.merit == DefaultMerit)
    && (if c.other.Some? then r.schlarship.other == c.other.value else r.schlarship.other == DefaultOther)
  }

  /** The violation the schema reports for the candidate. Each path reports
      at most its first failing validator, `required` being checked first;
      an empty string does not satisfy `required`. */
  predicate Breaks(c: Candidate, v: Violation) {
    match v.field
    case NamePath =>
      || (v.rule == Required && (c.name.None? || c.name.value == ""))
      || (v.rule == MinLength(NameMinLength) && c.name.Some? && 0 < Utf16Length(c.name.value) < NameMinLength)
    case AgePath =>
      v.rule == Min(MinAge) && c.age.Some? && c.age.value < MinAge
    case MajorPath =>
      || (v.rule == Required && (c.major.None? || c.major.value == ""))
      || (v.rule == Enum && c.major.Some? && c.major.value != "" && c.major.value !in Majors)
    case MeritPath =>
      || (v.rule == Min(MinMerit) && c.merit.Some? && c.merit.value < MinMerit)
      || (v.rule == Max(MaxMerit) && c.merit.Some? && c.merit.value > MaxMerit)
    case OtherPath =>
      v.rule == Min(MinOther) && c.other.Some? && c.other.value < MinOther
  }

  function CheckName(name: Option<string>): Option<Rule> {
    match name
    case None => Some(Required)
    case Some(s) =>
      if s == "" then Some(Required)
      else if Utf16Length(s) < NameMinLength then Some(MinLength(NameMinLength))
      else None
  }

  function CheckAge(age: Option<int>): Option<Rule> {
    if age.Some? && age.value < MinAge then Some(Min(MinAge)) else None
  }

  function CheckMajor(major: Option<string>): Option<Rule> {
    match major
    case None => Some(Required)
    case Some(s) =>
      if s == "" then Some(Required)
      else if s !in Majors then Some(Enum)
      else None
  }

  function CheckMerit(merit: Option<int>): Option<Rule> {
    if merit.None? then None
    else if merit.value < MinMerit then Some(Min(MinMerit))
    else if merit.value > MaxMerit then Some(Max(MaxMerit))
    else None
  }

  function CheckOther(other: Option<int>): Option<Rule> {
    if other.Some? && other.value < MinOther then Some(Min(MinOther)) else None
  }

  function Report(f: Field, check: Option<Rule>): seq<Violation> {
    if check.Some? then [Violation(f, check.value)] else []
  }

  /** All violations of the candidate, in schema path order. */
  function Violations(c: Candidate): seq<Violation> {
    Report(NamePath, CheckName(c.name))
    + Report(AgePath, CheckAge(c.age))
    + Report(MajorPath, CheckMajor(c.major))
    + Report(MeritPath, CheckMerit(c.merit))
    + Report(OtherPath, CheckOther(c.other))
  }

  /** The document constructed from the candidate, with defaults applied. */
  function Build(c: Candidate): Record
    requires c.name.Some? && c.major.Some?
  {
    Record(c.name.value, c.age.GetOr(DefaultAge), c.major.value,
           Scholarship(c.merit.GetOr(DefaultMerit), c.other.GetOr(DefaultOther)))
  }

  /** Validating a candidate: either the fully defaulted valid record, or
      every violation, at most one per path. */
  function Validate(c: Candidate): (r: Result<Record, seq<Violation>>)
    ensures r.Success? <==> Admissible(c)
    ensures r.Success? ==> Valid(r.value) && Fills(c, r.value)
    ensures r.Failure? ==> |r.error| > 0
    ensures r.Failure? ==> forall v :: v in r.error <==> Breaks(c, v)
    ensures r.Failure? ==> forall i, j :: 0 <= i < j < |r.error| ==> r.error[i].field != r.error[j].field
  {
    var vs := Violations(c);
    if vs == [] then Success(Build(c)) else Failure(vs)
  }

  /** The request body that resubmits a record unchanged, as the edit form does. */
  function AsCandidate(r: Record): Candidate {
    Candidate(Some(r.name), Some(r.age), Some(r.major), Some(r.schlarship.merit), Some(r.schlarship.other))
  }

  /** A valid record resubmitted with every field validates to itself. */
  lemma RevalidateValid(r: Record)
    requires Valid(r)
    ensures Validate(AsCandidate(r)) == Success(r)
  {
  }

  /** Validation is idempotent: the record it produces passes again unchanged. */
  lemma ValidateIdempotent(c: Candidate)
    requires Validate(c).Success?
    ensures Validate(AsCandidate(Validate(c).value)) == Validate(c)
  {
    RevalidateValid(Validate(c).value);
  }

  /** Breaking any single rule rejects the candidate and names that rule. */
  lemma OneBrokenRuleRejects(c: Candidate, v: Violation)
    requires Breaks(c, v)
    ensures Validate(c).Failure? && v in Validate(c).error
  {
  }

  /** Worked cases: a complete valid body, a body with the optional fields
      omitted, a name one character short, a one-character name that is two
      UTF-16 units long, and a body breaking three rules at once. */
  lemma Examples()
    ensures Validate(Candidate(Some("Al"), Some(20), Some("Math"), Some(100), Some(0)))
         == Success(Record("Al", 20, "Math", Scholarship(100, 0)))
    ensures Validate(Candidate(Some("Al"), None, Some("Math"), None, None))
         == Success(Record("Al", DefaultAge, "Math", Scholarship(DefaultMerit, DefaultOther)))
    ensures Validate(Candidate(Some("A"), None, Some("Math"), None, None))
         == Failure([Violation(NamePath, MinLength(2))])
    ensures Validate(Candidate(Some("\U{1F600}"), None, Some("Math"), None, None))
         == Success(Record("\U{1F600}", DefaultAge, "Math", Scholarship(DefaultMerit, DefaultOther)))
    ensures Validate(Candidate(Some("Bea"), Some(-1), Some("Art"), Some(6000), None))
         == Failure([Violation(AgePath, Min(0)), Violation(MajorPath, Enum), Violation(MeritPath, Max(5000))])
  {
    assert Utf16Length("A") == 1;
    assert Utf16Length("\U{1F600}") == 2;
    assert "Art" !in Majors by {
      forall m | m in Majors ensures m != "Art" {
        assert |m| != |"Art"|;
      }
    }
    assert Violations(Candidate(Some("A"), None, Some("Math"), None, None)) == [Violation(NamePath, MinLength(2))];
    assert Violations(Candidate(Some("Bea"), Some(-1), Some("Art"), Some(6000), None))
        == [Violation(AgePath, Min(0)), Violation(MajorPath, Enum), Violation(MeritPath, Max(5000))];
  }
}
