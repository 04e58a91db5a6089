/** The administrator's mutations: creating, partially updating and
    deleting a scholarship, and reviewing an application. Request bodies
    arrive already typed (strings, integers, booleans, string lists); the
    validators of each route, their trimming sanitizers, the defaults of
    the destructuring, the JSON encoding of the list-valued columns and the
    `affectedRows === 0` answers are modelled. E-mail syntax is an oracle. */
module AdminRoutes {
  import opened Common
  import opened Seqs
  import opened Text
  import JsonList
  import opened Schema
  import Auth
  import ScholarshipRoutes

  const MaxTitleLength: int := 255
  const DefaultMaxRecipients: int := 1

  /** Every admin route runs behind `authenticateToken` and `requireAdmin`;
      `handle` receives the administrator's id. */
  function Guarded<T>(db: Db, header: Option<string>, verify: string -> Option<nat>,
                      handle: nat -> Reply<T>): (r: Reply<T>)
    ensures Auth.AdminGate(db, header, verify).Err? ==>
      r == Reply(db, Err(Auth.AdminGate(db, header, verify).failure))
    ensures Auth.AdminGate(db, header, verify).Ok? ==>
      Auth.Authenticate(db, header, verify).Ok? &&
      Auth.Authenticate(db, header, verify).value.role == AdminRole &&
      r == handle(Auth.Authenticate(db, header, verify).value.id)
  {
    match Auth.AdminGate(db, header, verify)
    case Err(f) => Reply(db, Err(f))
    case Ok(who) => handle(who.id)
  }

  /** An authenticated non-admin is refused with 403 and nothing is written. */
  lemma GuardedRefusesUsers<T>(db: Db, header: Option<string>, verify: string -> Option<nat>,
                               handle: nat -> Reply<T>)
    requires Auth.Authenticate(db, header, verify).Ok?
    requires Auth.Authenticate(db, header, verify).value.role == UserRole
    ensures Guarded(db, header, verify, handle) == Reply(db, Err(Forbidden))
  {
  }

  /** The administrator a guarded handler runs for is a stored user, so the
      author and reviewer ids the handlers write name an existing row. */
  lemma GuardedCallerExists(db: Db, header: Option<string>, verify: string -> Option<nat>)
    requires Auth.AdminGate(db, header, verify).Ok?
    ensures Auth.Authenticate(db, header, verify).Ok?
    ensures HasUser(db, Auth.Authenticate(db, header, verify).value.id)
  {
    var who := Auth.Authenticate(db, header, verify).value;
    var i :| 0 <= i < |db.users| && Auth.IdentityOf(db.users[i]) == who;
    assert db.users[i].id == who.id;
  }

  // Field validators shared by create and update

  /** A character `isLength` counts: the variation selectors U+FE0E and
      U+FE0F are left out of the length. */
  predicate Counted(c: char)
  {
    c != '\U{FE0E}' && c != '\U{FE0F}'
  }

  /** The length `isLength` measures. */
  function ValidatorLength(t: string): nat
  {
    CountWhere(t, Counted)
  }

  /** A text without variation selectors has its plain length. */
  lemma {:induction false} ValidatorLengthPlain(t: string)
    requires forall i :: 0 <= i < |t| ==> Counted(t[i])
    ensures ValidatorLength(t) == |t|
  {
    FilterAll(t, Counted);
    FilterLength(t, Counted);
  }

  /** A title or description made only of a variation selector has length 0
      for the validator, so it is refused. */
  lemma SelectorOnlyRefused()
    ensures !TitleOk("\U{FE0F}") && !DescriptionOk("\U{FE0F}")
  {
    var t := "\U{FE0F}";
    assert Trim(t) == [] || Trim(t) == t;
    assert CountWhere([], Counted) == 0;
    assert CountWhere(t, Counted) == 0;
  }

  /** `trim().isLength({ min: 1, max: 255 })`. */
  predicate TitleOk(t: string)
  {
    1 <= ValidatorLength(Trim(t)) <= MaxTitleLength
  }

  /** `trim().isLength({ min: 1 })`. */
  predicate DescriptionOk(d: string)
  {
    ValidatorLength(Trim(d)) >= 1
  }

  /** `isNumeric({ min: 0 })`: the option `min` is not an option of
      `isNumeric`, so any integer text passes, negative ones included. */
  predicate AmountOk(a: string)
  {
    ParseInt(a).Some?
  }

  /** `isArray({ min: 1 })`. */
  predicate ListOk(l: seq<string>)
  {
    |l| >= 1
  }

  /** One entry of the `errors` array: the field's name when its check fails. */
  function Flag(ok: bool, field: string): seq<string>
  {
    if ok then [] else [field]
  }

  // POST /scholarships

  /** The body of a create request; an absent key is `None`. */
  datatype CreateBody = CreateBody(
    title: Option<string>, description: Option<string>, amount: Option<string>,
    deadline: Option<int>, category: Option<string>,
    eligibility: Option<seq<string>>, requirements: Option<seq<string>>,
    contactEmail: Option<string>, maxRecipients: Option<int>,
    renewable: Option<bool>, featured: Option<bool>,
    fieldOfStudy: Option<seq<string>>, applicationLink: Option<string>)

  /** The validators of `POST /scholarships`, in declaration order. */
  function CreateViolations(b: CreateBody, isEmail: string -> bool): (v: seq<string>)
    ensures v == [] <==>
      && b.title.Some? && 1 <= ValidatorLength(Trim(b.title.value)) <= 255
      && b.description.Some? && ValidatorLength(Trim(b.description.value)) >= 1
      && b.amount.Some? && ParseInt(b.amount.value).Some?
      && b.deadline.Some?
      && b.category.Some? && ParseCategory(b.category.value).Some?
      && b.eligibility.Some? && |b.eligibility.value| >= 1
      && b.requirements.Some? && |b.requirements.value| >= 1
      && b.contactEmail.Some? && isEmail(b.contactEmail.value)
      && (b.maxRecipients.Some? ==> b.maxRecipients.value >= 1)
  {
    Flag(b.title.Some? && TitleOk(b.title.value), "title")
    + Flag(b.description.Some? && DescriptionOk(b.description.value), "description")
    + Flag(b.amount.Some? && AmountOk(b.amount.value), "amount")
    + Flag(b.deadline.Some?, "deadline")
    + Flag(b.category.Some? && ParseCategory(b.category.value).Some?, "category")
    + Flag(b.eligibility.Some? && ListOk(b.eligibility.value), "eligibility")
    + Flag(b.requirements.Some? && ListOk(b.requirements.value), "requirements")
    + Flag(b.contactEmail.Some? && isEmail(b.contactEmail.value), "contact_email")
    + Flag(b.maxRecipients.None? || b.maxRecipients.value >= 1, "max_recipients")
  }

  /** The required fields are present and parse. */
  predicate Complete(b: CreateBody)
  {
    && b.title.Some? && b.description.Some? && b.amount.Some? && AmountOk(b.amount.value)
    && b.deadline.Some? && b.category.Some? && ParseCategory(b.category.value).Some?
    && b.eligibility.Some? && b.requirements.Some? && b.contactEmail.Some?
  }

  /** `JSON.stringify` of an optional list: `null` stays `NULL`. */
  function EncodeOptional(l: Option<seq<string>>): (r: Option<string>)
    ensures r.Some? <==> l.Some?
    ensures r.Some? ==> JsonList.Decode(r.value) == Some(l.value)
  {
    match l
    case None => None
    case Some(xs) => JsonList.DecodeEncode(xs); Some(JsonList.Encode(xs))
  }

  /** The row `INSERT INTO scholarships` stores for a validated body. */
  function NewScholarship(db: Db, b: CreateBody, caller: nat, now: int): (r: Scholarship)
    requires Complete(b)
    ensures r.id == db.nextScholarshipId && r.createdBy == Some(caller) && r.createdAt == now && r.status == Active
    ensures JsonList.Decode(r.eligibility) == Some(b.eligibility.value)
    ensures JsonList.Decode(r.requirements) == Some(b.requirements.value)
  {
    JsonList.DecodeEncode(b.eligibility.value);
    JsonList.DecodeEncode(b.requirements.value);
    Scholarship(
      db.nextScholarshipId, Trim(b.title.value), Trim(b.description.value),
      ParseInt(b.amount.value).value, b.deadline.value, ParseCategory(b.category.value).value,
      JsonList.Encode(b.eligibility.value), JsonList.Encode(b.requirements.value),
      if b.featured.Some? then b.featured.value else false, b.applicationLink, b.contactEmail.value,
      if b.maxRecipients.Some? then b.maxRecipients.value else DefaultMaxRecipients, if b.renewable.Some? then b.renewable.value else false,
      EncodeOptional(b.fieldOfStudy), DefaultScholarshipStatus, now, Some(caller))
  }

  /** `POST /scholarships` for administrator `caller`: 400 with every failed
      field, otherwise one row is inserted and its new id answered with 201. */
  function Create(db: Db, b: CreateBody, caller: nat, isEmail: string -> bool, now: int): (r: Reply<nat>)
    ensures r.result.Err? <==> CreateViolations(b, isEmail) != []
    ensures r.result.Err? ==> r == Reply(db, Err(ValidationFailed(CreateViolations(b, isEmail))))
    ensures r.result.Ok? ==>
      && Complete(b)
      && r.result.value == db.nextScholarshipId
      && r.db == db.(scholarships := db.scholarships + [NewScholarship(db, b, caller, now)],
                     nextScholarshipId := db.nextScholarshipId + 1)
  {
    var v := CreateViolations(b, isEmail);
    if v != [] then Reply(db, Err(ValidationFailed(v)))
    else
      var row := NewScholarship(db, b, caller, now);
      Reply(db.(scholarships := db.scholarships + [row], nextScholarshipId := db.nextScholarshipId + 1),
            Ok(row.id))
  }

  /** What a created scholarship reads back as: the trimmed texts, the
      posted lists, the defaults for absent optional fields, status active,
      and the caller as its author. */
  lemma CreateReadBack(db: Db, b: CreateBody, caller: nat, isEmail: string -> bool, now: int)
    requires CreateViolations(b, isEmail) == []
    ensures var r := Create(db, b, caller, isEmail, now);
      var row := r.db.scholarships[|r.db.scholarships| - 1];
      && row.id == r.result.value
      && row.createdBy == Some(caller) && row.createdAt == now
      && row.maxRecipients >= 1
      && ToView(row) == Some(View(
           r.result.value, Trim(b.title.value), Trim(b.description.value),
           ParseInt(b.amount.value).value, b.deadline.value, ParseCategory(b.category.value).value,
           b.eligibility.value, b.requirements.value,
           if b.featured.Some? then b.featured.value else false,
           b.applicationLink, b.contactEmail.value,
           if b.maxRecipients.Some? then b.maxRecipients.value else 1,
           if b.renewable.Some? then b.renewable.value else false,
           b.fieldOfStudy, Active))
  {
    var r := Create(db, b, caller, isEmail, now);
    assert r.result.Ok? && Complete(b);
    NewScholarshipView(db, b, caller, now);
  }

  /** The inserted row decodes to the validated body's values. */
  lemma NewScholarshipView(db: Db, b: CreateBody, caller: nat, now: int)
    requires Complete(b)
    ensures ToView(NewScholarship(db, b, caller, now)) == Some(View(
           db.nextScholarshipId, Trim(b.title.value), Trim(b.description.value),
           ParseInt(b.amount.value).value, b.deadline.value, ParseCategory(b.category.value).value,
           b.eligibility.value, b.requirements.value,
           if b.featured.Some? then b.featured.value else false,
           b.applicationLink, b.contactEmail.value,
           if b.maxRecipients.Some? then b.maxRecipients.value else 1,
           if b.renewable.Some? then b.renewable.value else false,
           b.fieldOfStudy, Active))
  {
    JsonList.DecodeEncode(b.eligibility.value);
    JsonList.DecodeEncode(b.requirements.value);
  }

  /** A body that sets no optional field gets one recipient, not renewable,
      not featured and no field of study. */
  lemma CreateDefaults(db: Db, b: CreateBody, caller: nat, isEmail: string -> bool, now: int)
    requires CreateViolations(b, isEmail) == []
    requires b.maxRecipients.None? && b.renewable.None? && b.featured.None? && b.fieldOfStudy.None?
    ensures var r := Create(db, b, caller, isEmail, now);
      var row := r.db.scholarships[|r.db.scholarships| - 1];
      row.maxRecipients == 1 && !row.renewable && !row.featured && row.fieldOfStudy.None? &&
      row.status == Active
  {
  }

  /** An empty list of eligibility lines or of requirements is refused. */
  lemma CreateNeedsLists(db: Db, b: CreateBody, caller: nat, isEmail: string -> bool, now: int)
    requires (b.eligibility.Some? && b.eligibility.value == []) || (b.requirements.Some? && b.requirements.value == [])
    ensures Create(db, b, caller, isEmail, now) == Reply(db, Err(ValidationFailed(CreateViolations(b, isEmail))))
    ensures Code(Create(db, b, caller, isEmail, now).result.failure) == 400
  {
  }

  /** Creating keeps every constraint. */
  lemma CreateValid(db: Db, b: CreateBody, caller: nat, isEmail: string -> bool, now: int)
    requires Valid(db) && HasUser(db, caller)
    ensures Valid(Create(db, b, caller, isEmail, now).db)
  {
    var r := Create(db, b, caller, isEmail, now);
    if r.result.Ok? {
      NewScholarshipFits(db, b, caller, now);
      InsertScholarshipValid(db, NewScholarship(db, b, caller, now));
    }
  }

  /** The row a create inserts takes the next id, stores well-formed lists and names an existing author. */
  lemma NewScholarshipFits(db: Db, b: CreateBody, caller: nat, now: int)
    requires Complete(b) && HasUser(db, caller)
    ensures var row := NewScholarship(db, b, caller, now);
      row.id == db.nextScholarshipId && ListsWellFormed(row) && AuthorPresent(db, row)
  {
    JsonList.EncodeWellFormed(b.eligibility.value);
    JsonList.EncodeWellFormed(b.requirements.value);
  }

  /** On a consistent store, the public route finds a created scholarship under its new id. */
  lemma CreateThenGet(db: Db, b: CreateBody, caller: nat, isEmail: string -> bool, now: int)
    requires Valid(db) && CreateViolations(b, isEmail) == []
    ensures var r := Create(db, b, caller, isEmail, now);
      && ScholarshipRoutes.Get(r.db, r.result.value).Ok?
      && ToView(r.db.scholarships[|r.db.scholarships| - 1]) == Some(ScholarshipRoutes.Get(r.db, r.result.value).value)
  {
    var r := Create(db, b, caller, isEmail, now);
    var row := NewScholarship(db, b, caller, now);
    var id := db.nextScholarshipId;
    CreateReadBack(db, b, caller, isEmail, now);
    assert r.db.scholarships == db.scholarships + [row];
    var p := (s: Scholarship) => ScholarshipRoutes.IsActiveRow(id, s);
    assert p(row);
    assert forall i :: 0 <= i < |db.scholarships| ==> !p(db.scholarships[i]) by {
      assert forall i :: 0 <= i < |db.scholarships| ==> db.scholarships[i].id != id;
    }
    FindAppended(db.scholarships, row, p);
  }

  // PUT /scholarships/:id

  /** The body of an update request over the closed set of columns it may
      name; an absent key is `None`. */
  datatype UpdateBody = UpdateBody(
    title: Option<string>, description: Option<string>, amount: Option<string>,
    deadline: Option<int>, category: Option<string>,
    eligibility: Option<seq<string>>, requirements: Option<seq<string>>,
    contactEmail: Option<string>, status: Option<string>,
    maxRecipients: Option<int>, renewable: Option<bool>, featured: Option<bool>,
    fieldOfStudy: Option<seq<string>>, applicationLink: Option<string>)

  const NoChanges: UpdateBody :=
    UpdateBody(None, None, None, None, None, None, None, None, None, None, None, None, None, None)

  /** The validators of `PUT /scholarships/:id`; every one is `optional()`,
      and five columns have none at all. */
  function UpdateViolations(u: UpdateBody, isEmail: string -> bool): (v: seq<string>)
    ensures v == [] <==>
      && (u.title.Some? ==> 1 <= ValidatorLength(Trim(u.title.value)) <= 255)
      && (u.description.Some? ==> ValidatorLength(Trim(u.description.value)) >= 1)
      && (u.amount.Some? ==> ParseInt(u.amount.value).Some?)
      && (u.category.Some? ==> ParseCategory(u.category.value).Some?)
      && (u.eligibility.Some? ==> |u.eligibility.value| >= 1)
      && (u.requirements.Some? ==> |u.requirements.value| >= 1)
      && (u.contactEmail.Some? ==> isEmail(u.contactEmail.value))
      && (u.status.Some? ==> ParseScholarshipStatus(u.status.value).Some?)
  {
    Flag(u.title.None? || TitleOk(u.title.value), "title")
    + Flag(u.description.None? || DescriptionOk(u.description.value), "description")
    + Flag(u.amount.None? || AmountOk(u.amount.value), "amount")
    + Flag(u.category.None? || ParseCategory(u.category.value).Some?, "category")
    + Flag(u.eligibility.None? || ListOk(u.eligibility.value), "eligibility")
    + Flag(u.requirements.None? || ListOk(u.requirements.value), "requirements")
    + Flag(u.contactEmail.None? || isEmail(u.contactEmail.value), "contact_email")
    + Flag(u.status.None? || ParseScholarshipStatus(u.status.value).Some?, "status")
  }

  /** `Object.keys(updates).length === 0`. */
  predicate IsEmpty(u: UpdateBody)
  {
    && u.title.None? && u.description.None? && u.amount.None? && u.deadline.None?
    && u.category.None? && u.eligibility.None? && u.requirements.None?
    && u.contactEmail.None? && u.status.None? && u.maxRecipients.None?
    && u.renewable.None? && u.featured.None? && u.fieldOfStudy.None? && u.applicationLink.None?
  }

  /** The present values can be stored: the enumerations and the amount parse. */
  predicate Parses(u: UpdateBody)
  {
    && (u.amount.Some? ==> AmountOk(u.amount.value))
    && (u.category.Some? ==> ParseCategory(u.category.value).Some?)
    && (u.status.Some? ==> ParseScholarshipStatus(u.status.value).Some?)
  }

  /** `SET key = ?` for each present key: the list columns JSON-encoded, the
      trimmed texts as sanitized, every other value verbatim. */
  function Patch(s: Scholarship, u: UpdateBody): (r: Scholarship)
    requires Parses(u)
    ensures r.id == s.id && r.createdAt == s.createdAt && r.createdBy == s.createdBy
    ensures u.eligibility.Some? ==> JsonList.Decode(r.eligibility) == Some(u.eligibility.value)
    ensures u.requirements.Some? ==> JsonList.Decode(r.requirements) == Some(u.requirements.value)
  {
    assert u.eligibility.Some? ==> JsonList.Decode(JsonList.Encode(u.eligibility.value)) == Some(u.eligibility.value) by {
      if u.eligibility.Some? { JsonList.DecodeEncode(u.eligibility.value); }
    }
    assert u.requirements.Some? ==> JsonList.Decode(JsonList.Encode(u.requirements.value)) == Some(u.requirements.value) by {
      if u.requirements.Some? { JsonList.DecodeEncode(u.requirements.value); }
    }
    Scholarship(
      s.id,
      if u.title.Some? then Trim(u.title.value) else s.title,
      if u.description.Some? then Trim(u.description.value) else s.description,
      if u.amount.Some? then ParseInt(u.amount.value).value else s.amount,
      if u.deadline.Some? then u.deadline.value else s.deadline,
      if u.category.Some? then ParseCategory(u.category.value).value else s.category,
      if u.eligibility.Some? then JsonList.Encode(u.eligibility.value) else s.eligibility,
      if u.requirements.Some? then JsonList.Encode(u.requirements.value) else s.requirements,
      if u.featured.Some? then u.featured.value else s.featured,
      if u.applicationLink.Some? then u.applicationLink else s.applicationLink,
      if u.contactEmail.Some? then u.contactEmail.value else s.contactEmail,
      if u.maxRecipients.Some? then u.maxRecipients.value else s.maxRecipients,
      if u.renewable.Some? then u.renewable.value else s.renewable,
      if u.fieldOfStudy.Some? then EncodeOptional(u.fieldOfStudy) else s.fieldOfStudy,
      if u.status.Some? then ParseScholarshipStatus(u.status.value).value else s.status,
      s.createdAt, s.createdBy)
  }

  /** `UPDATE scholarships SET .. WHERE id = ?`: rows with another id are untouched. */
  function PatchWhere(rows: seq<Scholarship>, id: nat, u: UpdateBody): (r: seq<Scholarship>)
    requires Parses(u)
    ensures |r| == |rows|
    ensures forall i :: 0 <= i < |rows| ==> r[i] == if rows[i].id == id then Patch(rows[i], u) else rows[i]
  {
    seq(|rows|, i requires 0 <= i < |rows| => if rows[i].id == id then Patch(rows[i], u) else rows[i])
  }

  /** `PUT /scholarships/:id`: 400 with the failed fields, then 400 for an
      empty body, then 404 when no row has the id, otherwise the present
      fields are overwritten. */
  function Update(db: Db, id: nat, u: UpdateBody, isEmail: string -> bool): (r: Reply<()>)
    ensures r.result.Err? ==> r.db == db
    ensures r.result.Err? && r.result.failure.ValidationFailed? <==> UpdateViolations(u, isEmail) != []
    ensures r.result == Err(BadRequest) <==> UpdateViolations(u, isEmail) == [] && IsEmpty(u)
    ensures r.result == Err(NotFound) <==>
      UpdateViolations(u, isEmail) == [] && !IsEmpty(u) &&
      forall i :: 0 <= i < |db.scholarships| ==> db.scholarships[i].id != id
    ensures r.result.Ok? ==>
      && Parses(u) && HasScholarship(db, id)
      && r.db == db.(scholarships := PatchWhere(db.scholarships, id, u))
    ensures UpdateViolations(u, isEmail) == [] && !IsEmpty(u) && HasScholarship(db, id) ==> r.result == Ok(())
  {
    var v := UpdateViolations(u, isEmail);
    if v != [] then Reply(db, Err(ValidationFailed(v)))
    else if IsEmpty(u) then Reply(db, Err(BadRequest))
    else if !HasScholarship(db, id) then Reply(db, Err(NotFound))
    else Reply(db.(scholarships := PatchWhere(db.scholarships, id, u)), Ok(()))
  }

  /** An update with no fields answers 400 and writes nothing. */
  lemma UpdateNothing(db: Db, id: nat, isEmail: string -> bool)
    ensures Update(db, id, NoChanges, isEmail) == Reply(db, Err(BadRequest))
  {
  }

  /** A patch overwrites exactly the fields present in the body; the row's
      identity, creation stamp and author never change. */
  lemma PatchKeepsAbsent(s: Scholarship, u: UpdateBody)
    requires Parses(u)
    ensures var p := Patch(s, u);
      && p.id == s.id && p.createdAt == s.createdAt && p.createdBy == s.createdBy
      && (u.title.None? ==> p.title == s.title)
      && (u.description.None? ==> p.description == s.description)
      && (u.amount.None? ==> p.amount == s.amount)
      && (u.deadline.None? ==> p.deadline == s.deadline)
      && (u.category.None? ==> p.category == s.category)
      && (u.eligibility.None? ==> p.eligibility == s.eligibility)
      && (u.requirements.None? ==> p.requirements == s.requirements)
      && (u.contactEmail.None? ==> p.contactEmail == s.contactEmail)
      && (u.status.None? ==> p.status == s.status)
      && (u.maxRecipients.None? ==> p.maxRecipients == s.maxRecipients)
      && (u.renewable.None? ==> p.renewable == s.renewable)
      && (u.featured.None? ==> p.featured == s.featured)
      && (u.fieldOfStudy.None? ==> p.fieldOfStudy == s.fieldOfStudy)
      && (u.applicationLink.None? ==> p.applicationLink == s.applicationLink)
  {
  }

  /** The empty patch is the identity. */
  lemma PatchNothing(s: Scholarship)
    ensures Patch(s, NoChanges) == s
  {
  }

  /** A patched row reads back with the posted values: the lists as sent,
      the texts trimmed, the enumerations parsed. */
  lemma PatchReadBack(s: Scholarship, u: UpdateBody)
    requires Parses(u) && ListsWellFormed(s)
    ensures ListsWellFormed(Patch(s, u))
    ensures var v := ToView(Patch(s, u)).value;
      && (u.eligibility.Some? ==> v.eligibility == u.eligibility.value)
      && (u.requirements.Some? ==> v.requirements == u.requirements.value)
      && (u.fieldOfStudy.Some? ==> v.fieldOfStudy == u.fieldOfStudy)
      && (u.eligibility.None? ==> v.eligibility == ToView(s).value.eligibility)
      && (u.requirements.None? ==> v.requirements == ToView(s).value.requirements)
      && (u.title.Some? ==> v.title == Trim(u.title.value))
      && (u.status.Some? ==> ScholarshipStatusName(v.status) == u.status.value)
      && (u.category.Some? ==> CategoryName(v.category) == u.category.value)
  {
    var p := Patch(s, u);
    assert u.eligibility.Some? ==> JsonList.Decode(JsonList.Encode(u.eligibility.value)) == Some(u.eligibility.value) by {
      if u.eligibility.Some? { JsonList.DecodeEncode(u.eligibility.value); }
    }
    assert u.requirements.Some? ==> JsonList.Decode(JsonList.Encode(u.requirements.value)) == Some(u.requirements.value) by {
      if u.requirements.Some? { JsonList.DecodeEncode(u.requirements.value); }
    }
    if u.status.Some? {
      ParseScholarshipStatusIff(u.status.value, p.status);
    }
    if u.category.Some? {
      ParseCategoryIff(u.category.value, p.category);
    }
  }

  /** Patching twice with the same body is patching once. */
  lemma PatchIdempotent(s: Scholarship, u: UpdateBody)
    requires Parses(u)
    ensures Patch(Patch(s, u), u) == Patch(s, u)
  {
  }

  /** Sending the same update twice leaves the store as sending it once. */
  lemma UpdateIdempotent(db: Db, id: nat, u: UpdateBody, isEmail: string -> bool)
    ensures var once := Update(db, id, u, isEmail);
      Update(once.db, id, u, isEmail).db == once.db
  {
    var once := Update(db, id, u, isEmail);
    if once.result.Ok? {
      var rows := PatchWhere(db.scholarships, id, u);
      var twice := PatchWhere(rows, id, u);
      forall i | 0 <= i < |rows| ensures twice[i] == rows[i] {
        if db.scholarships[i].id == id { PatchIdempotent(db.scholarships[i], u); }
      }
      assert HasScholarship(once.db, id) by {
        var j :| 0 <= j < |db.scholarships| && db.scholarships[j].id == id;
        assert rows[j].id == id;
      }
    }
  }

  /** Updating keeps every constraint. */
  lemma UpdateValid(db: Db, id: nat, u: UpdateBody, isEmail: string -> bool)
    requires Valid(db)
    ensures Valid(Update(db, id, u, isEmail).db)
  {
    if Update(db, id, u, isEmail).result.Ok? {
      var rows := PatchWhere(db.scholarships, id, u);
      forall i | 0 <= i < |rows| ensures ListsWellFormed(rows[i]) && rows[i].id == db.scholarships[i].id {
        if db.scholarships[i].id == id { PatchReadBack(db.scholarships[i], u); }
      }
      RewriteScholarshipsValid(db, rows);
    }
  }

  // DELETE /scholarships/:id

  /** `DELETE /scholarships/:id`: 404 when no row has the id, otherwise the
      row and its applications are removed. */
  function Delete(db: Db, id: nat): (r: Reply<()>)
    ensures r.result == Err(NotFound) <==> forall i :: 0 <= i < |db.scholarships| ==> db.scholarships[i].id != id
    ensures r.result.Err? ==> r.db == db
    ensures r.result.Ok? ==> r.db == DeleteScholarshipCascade(db, id)
    ensures HasScholarship(db, id) ==> r.result == Ok(())
  {
    if !HasScholarship(db, id) then Reply(db, Err(NotFound))
    else Reply(DeleteScholarshipCascade(db, id), Ok(()))
  }

  /** After a delete the public route no longer finds the id, and deleting
      it again answers 404. */
  lemma DeleteThenGone(db: Db, id: nat)
    requires Delete(db, id).result.Ok?
    ensures ScholarshipRoutes.Get(Delete(db, id).db, id) == Err(NotFound)
    ensures Delete(Delete(db, id).db, id) == Reply(Delete(db, id).db, Err(NotFound))
  {
  }

  /** Deleting keeps every constraint. */
  lemma DeleteValid(db: Db, id: nat)
    requires Valid(db)
    ensures Valid(Delete(db, id).db)
  {
    if Delete(db, id).result.Ok? { DeleteScholarshipValid(db, id); }
  }

  // PUT /applications/:id

  /** The body of a review request. */
  datatype ReviewBody = ReviewBody(status: Option<string>, notes: Option<string>)

  /** `notes || null` after the `trim()` sanitizer: absent or blank notes become `NULL`. */
  function StoredNotes(notes: Option<string>): (r: Option<string>)
    ensures r.None? <==> notes.None? || forall i :: 0 <= i < |notes.value| ==> IsSpace(notes.value[i])
    ensures r.Some? ==> r.value == Trim(notes.value)
  {
    match notes
    case None => None
    case Some(n) =>
      TrimEmptyIffBlank(n);
      if Trim(n) == [] then None else Some(Trim(n))
  }

  /** The review of one row: status, notes, time and reviewer overwritten. */
  function Reviewed(a: Application, st: ApplicationStatus, notes: Option<string>, caller: nat, now: int): (r: Application)
    ensures r.id == a.id && r.userId == a.userId && r.scholarshipId == a.scholarshipId && r.submittedAt == a.submittedAt
    ensures r.status == st && r.reviewedAt == Some(now) && r.reviewedBy == Some(caller)
  {
    a.(status := st, notes := StoredNotes(notes), reviewedAt := Some(now), reviewedBy := Some(caller))
  }

  function ReviewWhere(rows: seq<Application>, id: nat, st: ApplicationStatus, notes: Option<string>,
                       caller: nat, now: int): (r: seq<Application>)
    ensures |r| == |rows|
    ensures forall i :: 0 <= i < |rows| ==>
      r[i] == if rows[i].id == id then Reviewed(rows[i], st, notes, caller, now) else rows[i]
  {
    seq(|rows|, i requires 0 <= i < |rows| =>
      if rows[i].id == id then Reviewed(rows[i], st, notes, caller, now) else rows[i])
  }

  /** `PUT /applications/:id` by administrator `caller`: 400 unless the
      status is one of the four names, then 404 for an unknown id; otherwise
      the row is overwritten whatever its previous status. */
  function Review(db: Db, id: nat, b: ReviewBody, caller: nat, now: int): (r: Reply<()>)
    ensures r.result.Err? ==> r.db == db
    ensures r.result == Err(ValidationFailed(["status"])) <==>
      b.status.None? || ParseApplicationStatus(b.status.value).None?
    ensures r.result == Err(NotFound) <==>
      b.status.Some? && ParseApplicationStatus(b.status.value).Some? &&
      forall i :: 0 <= i < |db.applications| ==> db.applications[i].id != id
    ensures r.result.Ok? ==>
      && b.status.Some? && ParseApplicationStatus(b.status.value).Some?
      && r.db == db.(applications := ReviewWhere(db.applications, id,
                       ParseApplicationStatus(b.status.value).value, b.notes, caller, now))
  {
    if b.status.None? || ParseApplicationStatus(b.status.value).None? then
      Reply(db, Err(ValidationFailed(["status"])))
    else if !HasApplication(db, id) then Reply(db, Err(NotFound))
    else
      var st := ParseApplicationStatus(b.status.value).value;
      Reply(db.(applications := ReviewWhere(db.applications, id, st, b.notes, caller, now)), Ok(()))
  }

  /** Any stored application can be moved to any of the four statuses: the
      stored status is the one named, the reviewer is the caller, and every
      other application is untouched. */
  lemma ReviewAnyTransition(db: Db, k: nat, st: ApplicationStatus, notes: Option<string>, caller: nat, now: int)
    requires k < |db.applications|
    ensures var r := Review(db, db.applications[k].id, ReviewBody(Some(ApplicationStatusName(st)), notes), caller, now);
      && r.result == Ok(())
      && |r.db.applications| == |db.applications|
      && r.db.applications[k].status == st
      && r.db.applications[k].reviewedBy == Some(caller)
      && r.db.applications[k].reviewedAt == Some(now)
      && r.db.applications[k].scholarshipId == db.applications[k].scholarshipId
      && r.db.applications[k].userId == db.applications[k].userId
      && (forall i :: 0 <= i < |db.applications| && db.applications[i].id != db.applications[k].id ==>
            r.db.applications[i] == db.applications[i])
  {
    ParseApplicationStatusIff(ApplicationStatusName(st), st);
  }

  /** A later review overwrites an earlier one completely. */
  lemma ReviewLastWins(db: Db, id: nat, b1: ReviewBody, b2: ReviewBody, c1: nat, c2: nat, t1: int, t2: int)
    requires b2.status.Some? && ParseApplicationStatus(b2.status.value).Some?
    ensures Review(Review(db, id, b1, c1, t1).db, id, b2, c2, t2) == Review(db, id, b2, c2, t2)
  {
    var db1 := Review(db, id, b1, c1, t1).db;
    assert HasApplication(db1, id) <==> HasApplication(db, id) by {
      if HasApplication(db, id) {
        var j :| 0 <= j < |db.applications| && db.applications[j].id == id;
        assert db1.applications[j].id == id;
      }
      if HasApplication(db1, id) {
        var j :| 0 <= j < |db1.applications| && db1.applications[j].id == id;
        assert db.applications[j].id == id;
      }
    }
  }

  /** Reviewing keeps every constraint, the one application per pair included. */
  lemma ReviewValid(db: Db, id: nat, b: ReviewBody, caller: nat, now: int)
    requires Valid(db) && HasUser(db, caller)
    ensures Valid(Review(db, id, b, caller, now).db)
  {
    var r := Review(db, id, b, caller, now);
    if r.result.Ok? {
      RewriteApplicationsValid(db, r.db.applications);
    }
  }
}
