/** The relational store of the portal: the users, scholarships and
    applications tables with their CHECK-constrained enumerations, defaults,
    UNIQUE constraints and cascading deletes, the storage-boundary decoding of
    the list-valued columns, and the one-time seeding of a default
    administrator. Ids are AUTOINCREMENT counters kept beside the tables. */
module Schema {
  import opened Common
  import opened Seqs
  import JsonList

  // Enumerations (CHECK constraints)

  datatype Role = AdminRole | UserRole

  function RoleName(r: Role): string
  {
    match r
    case AdminRole => "admin"
    case UserRole => "user"
  }

  function ParseRole(s: string): Option<Role>
  {
    if s == "admin" then Some(AdminRole)
    else if s == "user" then Some(UserRole)
    else None
  }

  /** The CHECK on `users.role` admits exactly the two role names. */
  lemma ParseRoleIff(s: string, r: Role)
    ensures ParseRole(s) == Some(r) <==> s == RoleName(r)
  {
  }

  /** `role TEXT DEFAULT 'user'`. */
  const DefaultRole: Role := UserRole

  /** The ten scholarship categories of the server. */
  datatype Category =
    | AcademicExcellence | NeedBased | Research | Athletics | CommunityService
    | International | ArtsAndCulture | Stem | Business | Healthcare

  function CategoryName(c: Category): string
  {
    match c
    case AcademicExcellence => "Academic Excellence"
    case NeedBased => "Need-Based"
    case Research => "Research"
    case Athletics => "Athletics"
    case CommunityService => "Community Service"
    case International => "International"
    case ArtsAndCulture => "Arts & Culture"
    case Stem => "STEM"
    case Business => "Business"
    case Healthcare => "Healthcare"
  }

  /** `isIn([...ten names...])` and the CHECK on `scholarships.category`. */
  function ParseCategory(s: string): Option<Category>
  {
    if s == "Academic Excellence" then Some(AcademicExcellence)
    else if s == "Need-Based" then Some(NeedBased)
    else if s == "Research" then Some(Research)
    else if s == "Athletics" then Some(Athletics)
    else if s == "Community Service" then Some(CommunityService)
    else if s == "International" then Some(International)
    else if s == "Arts & Culture" then Some(ArtsAndCulture)
    else if s == "STEM" then Some(Stem)
    else if s == "Business" then Some(Business)
    else if s == "Healthcare" then Some(Healthcare)
    else None
  }

  /** A category text is accepted exactly when it is the name of a category, and names that one. */
  lemma ParseCategoryIff(s: string, c: Category)
    ensures ParseCategory(s) == Some(c) <==> s == CategoryName(c)
  {
  }

  datatype ScholarshipStatus = Active | Inactive | Expired

  function ScholarshipStatusName(st: ScholarshipStatus): string
  {
    match st
    case Active => "active"
    case Inactive => "inactive"
    case Expired => "expired"
  }

  function ParseScholarshipStatus(s: string): Option<ScholarshipStatus>
  {
    if s == "active" then Some(Active)
    else if s == "inactive" then Some(Inactive)
    else if s == "expired" then Some(Expired)
    else None
  }

  lemma ParseScholarshipStatusIff(s: string, st: ScholarshipStatus)
    ensures ParseScholarshipStatus(s) == Some(st) <==> s == ScholarshipStatusName(st)
  {
  }

  /** `status TEXT DEFAULT 'active'`. */
  const DefaultScholarshipStatus: ScholarshipStatus := Active

  datatype ApplicationStatus = Pending | Approved | Rejected | UnderReview

  function ApplicationStatusName(st: ApplicationStatus): string
  {
    match st
    case Pending => "pending"
    case Approved => "approved"
    case Rejected => "rejected"
    case UnderReview => "under_review"
  }

  function ParseApplicationStatus(s: string): Option<ApplicationStatus>
  {
    if s == "pending" then Some(Pending)
    else if s == "approved" then Some(Approved)
    else if s == "rejected" then Some(Rejected)
    else if s == "under_review" then Some(UnderReview)
    else None
  }

  lemma ParseApplicationStatusIff(s: string, st: ApplicationStatus)
    ensures ParseApplicationStatus(s) == Some(st) <==> s == ApplicationStatusName(st)
  {
  }

  /** `status TEXT DEFAULT 'pending'`. */
  const DefaultApplicationStatus: ApplicationStatus := Pending

  // Rows

  /** A JSON value, as submitted in an application's `applicationData`. */
  datatype Json =
    | JNull
    | JBool(b: bool)
    | JNumber(n: int)
    | JString(s: string)
    | JArray(items: seq<Json>)
    | JObject(members: seq<(string, Json)>)

  datatype User = User(
    id: nat, email: string, passwordHash: string, role: Role,
    firstName: string, lastName: string)

  /** A scholarship row. `eligibility`, `requirements` and `fieldOfStudy`
      hold JSON text, as stored. */
  datatype Scholarship = Scholarship(
    id: nat, title: string, description: string, amount: int, deadline: int,
    category: Category, eligibility: string, requirements: string,
    featured: bool, applicationLink: Option<string>, contactEmail: string,
    maxRecipients: int, renewable: bool, fieldOfStudy: Option<string>,
    status: ScholarshipStatus, createdAt: int, createdBy: Option<nat>)

  datatype Application = Application(
    id: nat, scholarshipId: nat, userId: nat, status: ApplicationStatus,
    data: Json, submittedAt: int, reviewedAt: Option<int>,
    reviewedBy: Option<nat>, notes: Option<string>)

  datatype Db = Db(
    users: seq<User>, scholarships: seq<Scholarship>, applications: seq<Application>,
    nextUserId: nat, nextScholarshipId: nat, nextApplicationId: nat)

  /** A handler's effect: the store afterwards and the answer. */
  datatype Reply<T> = Reply(db: Db, result: Result<T>)

  /** A store with no rows. */
  function EmptyDb(): Db
  {
    Db([], [], [], 1, 1, 1)
  }

  // Constraints

  predicate DistinctEmail(a: User, b: User) { a.email != b.email }
  predicate DistinctUserId(a: User, b: User) { a.id != b.id }
  predicate DistinctScholarshipId(a: Scholarship, b: Scholarship) { a.id != b.id }
  predicate DistinctApplicationId(a: Application, b: Application) { a.id != b.id }

  /** `UNIQUE(scholarship_id, user_id)`. */
  predicate DistinctPair(a: Application, b: Application)
  {
    a.scholarshipId != b.scholarshipId || a.userId != b.userId
  }

  /** The list-valued columns of a row decode. */
  predicate ListsWellFormed(s: Scholarship)
  {
    && JsonList.WellFormed(s.eligibility)
    && JsonList.WellFormed(s.requirements)
    && (s.fieldOfStudy.Some? && s.fieldOfStudy.value != [] ==> JsonList.WellFormed(s.fieldOfStudy.value))
  }

  predicate HasScholarship(db: Db, id: nat)
  {
    exists i :: 0 <= i < |db.scholarships| && db.scholarships[i].id == id
  }

  predicate HasUser(db: Db, id: nat)
  {
    exists i :: 0 <= i < |db.users| && db.users[i].id == id
  }

  predicate HasApplication(db: Db, id: nat)
  {
    exists i :: 0 <= i < |db.applications| && db.applications[i].id == id
  }

  /** Whether (scholarship, user) already has an application. */
  predicate HasApplied(db: Db, scholarshipId: nat, userId: nat)
  {
    exists i :: 0 <= i < |db.applications| &&
      db.applications[i].scholarshipId == scholarshipId && db.applications[i].userId == userId
  }

  /** At most one application per (scholarship, user) pair. */
  ghost predicate OnePerPair(db: Db)
  {
    Pairwise(db.applications, DistinctPair)
  }

  /** Every constraint the schema declares, plus the counters staying ahead of the ids. */
  ghost predicate Valid(db: Db)
  {
    && Pairwise(db.users, DistinctUserId)
    && Pairwise(db.users, DistinctEmail)
    && Pairwise(db.scholarships, DistinctScholarshipId)
    && Pairwise(db.applications, DistinctApplicationId)
    && OnePerPair(db)
    && (forall i :: 0 <= i < |db.users| ==> db.users[i].id < db.nextUserId)
    && (forall i :: 0 <= i < |db.scholarships| ==> db.scholarships[i].id < db.nextScholarshipId)
    && (forall i :: 0 <= i < |db.applications| ==> db.applications[i].id < db.nextApplicationId)
    && (forall i :: 0 <= i < |db.scholarships| ==> ListsWellFormed(db.scholarships[i]))
    && ReferencesPresent(db)
  }

  /** Every foreign key names an existing row: an application's scholarship
      and applicant, its reviewer if any, and a scholarship's author if any. */
  ghost predicate ReferencesPresent(db: Db)
  {
    && (forall i :: 0 <= i < |db.applications| ==>
          HasScholarship(db, db.applications[i].scholarshipId) && HasUser(db, db.applications[i].userId))
    && (forall i :: 0 <= i < |db.scholarships| ==> AuthorPresent(db, db.scholarships[i]))
    && (forall i :: 0 <= i < |db.applications| ==> ReviewerPresent(db, db.applications[i]))
  }

  /** `FOREIGN KEY (created_by) REFERENCES users(id)`: a NULL author or an existing user. */
  predicate AuthorPresent(db: Db, s: Scholarship)
  {
    s.createdBy.Some? ==> HasUser(db, s.createdBy.value)
  }

  /** `FOREIGN KEY (reviewed_by) REFERENCES users(id)`: no reviewer or an existing user. */
  predicate ReviewerPresent(db: Db, a: Application)
  {
    a.reviewedBy.Some? ==> HasUser(db, a.reviewedBy.value)
  }

  /** The empty store satisfies every constraint. */
  lemma EmptyValid()
    ensures Valid(EmptyDb())
  {
  }

  /** Inserting a well-formed scholarship under the next id keeps every constraint. */
  lemma InsertScholarshipValid(db: Db, row: Scholarship)
    requires Valid(db) && row.id == db.nextScholarshipId && ListsWellFormed(row) && AuthorPresent(db, row)
    ensures Valid(db.(scholarships := db.scholarships + [row], nextScholarshipId := db.nextScholarshipId + 1))
  {
    var r := db.(scholarships := db.scholarships + [row], nextScholarshipId := db.nextScholarshipId + 1);
    PairwiseAppend(db.scholarships, row, DistinctScholarshipId);
    forall i | 0 <= i < |r.scholarships| ensures AuthorPresent(r, r.scholarships[i]) {
      if i < |db.scholarships| {
        assert AuthorPresent(db, db.scholarships[i]);
      }
    }
    forall i | 0 <= i < |r.applications|
      ensures HasScholarship(r, r.applications[i].scholarshipId)
    {
      var j :| 0 <= j < |db.scholarships| && db.scholarships[j].id == db.applications[i].scholarshipId;
      assert r.scholarships[j] == db.scholarships[j];
    }
  }

  /** Rewriting scholarship rows in place, ids kept and columns well formed, keeps every constraint. */
  lemma RewriteScholarshipsValid(db: Db, rows: seq<Scholarship>)
    requires Valid(db) && |rows| == |db.scholarships|
    requires forall i :: 0 <= i < |rows| ==>
      rows[i].id == db.scholarships[i].id && rows[i].createdBy == db.scholarships[i].createdBy && ListsWellFormed(rows[i])
    ensures Valid(db.(scholarships := rows))
  {
    RewriteScholarshipsReferences(db, rows);
  }

  /** An in-place rewrite that keeps ids and authors leaves no reference dangling. */
  lemma RewriteScholarshipsReferences(db: Db, rows: seq<Scholarship>)
    requires ReferencesPresent(db) && |rows| == |db.scholarships|
    requires forall i :: 0 <= i < |rows| ==>
      rows[i].id == db.scholarships[i].id && rows[i].createdBy == db.scholarships[i].createdBy
    ensures ReferencesPresent(db.(scholarships := rows))
  {
    var r := db.(scholarships := rows);
    forall i | 0 <= i < |rows| ensures AuthorPresent(r, rows[i]) {
      assert AuthorPresent(db, db.scholarships[i]);
    }
    forall i | 0 <= i < |r.applications|
      ensures HasScholarship(r, r.applications[i].scholarshipId)
    {
      var j :| 0 <= j < |db.scholarships| && db.scholarships[j].id == db.applications[i].scholarshipId;
      assert rows[j].id == db.scholarships[j].id;
    }
  }

  /** Rewriting application rows in place, keeping each row's id, scholarship
      and applicant, keeps every constraint. */
  lemma RewriteApplicationsValid(db: Db, rows: seq<Application>)
    requires Valid(db) && |rows| == |db.applications|
    requires forall i :: 0 <= i < |rows| ==>
      && rows[i].id == db.applications[i].id
      && rows[i].scholarshipId == db.applications[i].scholarshipId
      && rows[i].userId == db.applications[i].userId
      && ReviewerPresent(db, rows[i])
    ensures Valid(db.(applications := rows))
  {
    var r := db.(applications := rows);
    assert Pairwise(rows, DistinctApplicationId) by {
      forall i, j | 0 <= i < j < |rows| ensures DistinctApplicationId(rows[i], rows[j]) {
        assert DistinctApplicationId(db.applications[i], db.applications[j]);
      }
    }
    assert Pairwise(rows, DistinctPair) by {
      forall i, j | 0 <= i < j < |rows| ensures DistinctPair(rows[i], rows[j]) {
        assert DistinctPair(db.applications[i], db.applications[j]);
      }
    }
    forall i | 0 <= i < |rows|
      ensures HasScholarship(r, rows[i].scholarshipId) && HasUser(r, rows[i].userId)
    {
      assert HasScholarship(db, db.applications[i].scholarshipId);
      assert HasUser(db, db.applications[i].userId);
    }
  }

  // Storage boundary: decoding the list-valued columns

  /** A scholarship as the API returns it, list columns parsed. */
  datatype View = View(
    id: nat, title: string, description: string, amount: int, deadline: int,
    category: Category, eligibility: seq<string>, requirements: seq<string>,
    featured: bool, applicationLink: Option<string>, contactEmail: string,
    maxRecipients: int, renewable: bool, fieldOfStudy: Option<seq<string>>,
    status: ScholarshipStatus)

  /** `JSON.parse` of the three list columns; `None` where a parse would throw. */
  function ToView(s: Scholarship): (r: Option<View>)
    ensures r.Some? <==> ListsWellFormed(s)
    ensures r.Some? ==>
      && r.value.id == s.id && r.value.status == s.status && r.value.category == s.category
      && r.value.amount == s.amount && r.value.deadline == s.deadline && r.value.featured == s.featured
      && r.value.title == s.title && r.value.description == s.description
      && r.value.applicationLink == s.applicationLink && r.value.contactEmail == s.contactEmail
      && r.value.maxRecipients == s.maxRecipients && r.value.renewable == s.renewable
    ensures r.Some? ==>
      && JsonList.Decode(s.eligibility) == Some(r.value.eligibility)
      && JsonList.Decode(s.requirements) == Some(r.value.requirements)
      && (s.fieldOfStudy.None? || s.fieldOfStudy.value == [] <==> r.value.fieldOfStudy.None?)
      && (s.fieldOfStudy.Some? && s.fieldOfStudy.value != [] ==> JsonList.Decode(s.fieldOfStudy.value) == r.value.fieldOfStudy)
  {
    match (JsonList.Decode(s.eligibility), JsonList.Decode(s.requirements))
    case (Some(el), Some(rq)) =>
      if s.fieldOfStudy.None? || s.fieldOfStudy.value == [] then
        Some(View(s.id, s.title, s.description, s.amount, s.deadline, s.category, el, rq,
          s.featured, s.applicationLink, s.contactEmail, s.maxRecipients, s.renewable, None, s.status))
      else
        (match JsonList.Decode(s.fieldOfStudy.value)
         case Some(fs) =>
           Some(View(s.id, s.title, s.description, s.amount, s.deadline, s.category, el, rq,
             s.featured, s.applicationLink, s.contactEmail, s.maxRecipients, s.renewable, Some(fs), s.status))
         case None => None)
    case _ => None
  }

  /** The views of a sequence of rows, or `None` if any row fails to decode. */
  function ToViews(rows: seq<Scholarship>): (r: Option<seq<View>>)
    ensures r.Some? <==> forall i :: 0 <= i < |rows| ==> ListsWellFormed(rows[i])
    ensures r.Some? ==> |r.value| == |rows| && forall i :: 0 <= i < |rows| ==> ToView(rows[i]) == Some(r.value[i])
  {
    if rows == [] then Some([])
    else
      match (ToView(rows[0]), ToViews(rows[1..]))
      case (Some(v), Some(vs)) => Some([v] + vs)
      case (None, _) => None
      case (_, None) =>
        assert !ListsWellFormed(rows[1..][0]) || exists i :: 0 < i < |rows| && !ListsWellFormed(rows[i]) by {
          var j :| 0 <= j < |rows[1..]| && !ListsWellFormed(rows[1..][j]);
          assert rows[j + 1] == rows[1..][j];
        }
        None
  }

  // Cascading deletes

  /** `DELETE FROM scholarships WHERE id = ?` with `ON DELETE CASCADE` on applications. */
  function DeleteScholarshipCascade(db: Db, id: nat): (r: Db)
    ensures forall i :: 0 <= i < |r.scholarships| ==> r.scholarships[i].id != id
    ensures forall i :: 0 <= i < |r.applications| ==> r.applications[i].scholarshipId != id
    ensures forall i :: 0 <= i < |db.applications| && db.applications[i].scholarshipId != id ==>
      db.applications[i] in r.applications
    ensures forall i :: 0 <= i < |db.scholarships| && db.scholarships[i].id != id ==>
      db.scholarships[i] in r.scholarships
    ensures r.users == db.users
    ensures IsSubsequence(r.scholarships, db.scholarships) && IsSubsequence(r.applications, db.applications)
    ensures r.(scholarships := db.scholarships, applications := db.applications) == db
  {
    FilterIsSubsequence(db.scholarships, (s: Scholarship) => s.id != id);
    FilterIsSubsequence(db.applications, (a: Application) => a.scholarshipId != id);
    db.(scholarships := Filter(db.scholarships, (s: Scholarship) => s.id != id),
        applications := Filter(db.applications, (a: Application) => a.scholarshipId != id))
  }

  /** The user is still named by a row that a user delete does not remove:
      the author of a scholarship, or the reviewer of someone else's
      application. Those foreign keys declare no ON DELETE action. */
  predicate UserReferenced(db: Db, id: nat)
  {
    || (exists i :: 0 <= i < |db.scholarships| && db.scholarships[i].createdBy == Some(id))
    || (exists i :: 0 <= i < |db.applications| &&
          db.applications[i].userId != id && db.applications[i].reviewedBy == Some(id))
  }

  /** `DELETE FROM users WHERE id = ?`: refused (`None`) while an author or
      reviewer reference names the user; otherwise the user goes, with
      `ON DELETE CASCADE` removing their applications. */
  function DeleteUserCascade(db: Db, id: nat): (r: Option<Db>)
    ensures r.None? <==> UserReferenced(db, id)
    ensures r.Some? ==>
      && (forall i :: 0 <= i < |r.value.users| ==> r.value.users[i].id != id)
      && (forall i :: 0 <= i < |db.users| && db.users[i].id != id ==> db.users[i] in r.value.users)
      && (forall i :: 0 <= i < |r.value.applications| ==> r.value.applications[i].userId != id)
      && (forall i :: 0 <= i < |db.applications| && db.applications[i].userId != id ==>
            db.applications[i] in r.value.applications)
      && r.value.scholarships == db.scholarships
    ensures r.Some? ==>
      && IsSubsequence(r.value.users, db.users) && IsSubsequence(r.value.applications, db.applications)
      && r.value.(users := db.users, applications := db.applications) == db
  {
    if UserReferenced(db, id) then None
    else
      FilterIsSubsequence(db.users, (u: User) => u.id != id);
      FilterIsSubsequence(db.applications, (a: Application) => a.userId != id);
      Some(db.(users := Filter(db.users, (u: User) => u.id != id),
               applications := Filter(db.applications, (a: Application) => a.userId != id)))
  }

  /** Deleting a scholarship, with its applications, keeps every constraint. */
  lemma DeleteScholarshipValid(db: Db, id: nat)
    requires Valid(db)
    ensures Valid(DeleteScholarshipCascade(db, id))
  {
    var r := DeleteScholarshipCascade(db, id);
    FilterPairwise(db.scholarships, (s: Scholarship) => s.id != id, DistinctScholarshipId);
    FilterPairwise(db.applications, (a: Application) => a.scholarshipId != id, DistinctApplicationId);
    FilterPairwise(db.applications, (a: Application) => a.scholarshipId != id, DistinctPair);
    DeleteScholarshipReferences(db, id);
  }

  /** The scholarship delete leaves no reference dangling. */
  lemma DeleteScholarshipReferences(db: Db, id: nat)
    requires ReferencesPresent(db)
    ensures ReferencesPresent(DeleteScholarshipCascade(db, id))
  {
    var r := DeleteScholarshipCascade(db, id);
    forall i | 0 <= i < |r.applications|
      ensures HasScholarship(r, r.applications[i].scholarshipId)
    {
      var a := r.applications[i];
      var k :| 0 <= k < |db.applications| && db.applications[k] == a;
      var j :| 0 <= j < |db.scholarships| && db.scholarships[j].id == a.scholarshipId;
      assert db.scholarships[j] in r.scholarships;
      var m :| 0 <= m < |r.scholarships| && r.scholarships[m] == db.scholarships[j];
    }
    forall i | 0 <= i < |r.applications|
      ensures HasUser(r, r.applications[i].userId) && ReviewerPresent(r, r.applications[i])
    {
      var k :| 0 <= k < |db.applications| && db.applications[k] == r.applications[i];
      assert HasUser(db, db.applications[k].userId) && ReviewerPresent(db, db.applications[k]);
    }
    forall i | 0 <= i < |r.scholarships| ensures AuthorPresent(r, r.scholarships[i]) {
      var k :| 0 <= k < |db.scholarships| && db.scholarships[k] == r.scholarships[i];
      assert AuthorPresent(db, db.scholarships[k]);
    }
  }

  /** Deleting a user, with their applications, keeps every constraint:
      the delete goes ahead only when no author or reviewer reference
      would be left dangling. */
  lemma DeleteUserValid(db: Db, id: nat)
    requires Valid(db)
    ensures DeleteUserCascade(db, id).Some? ==> Valid(DeleteUserCascade(db, id).value)
  {
    if !UserReferenced(db, id) {
      var r := DeleteUserCascade(db, id).value;
      FilterPairwise(db.users, (u: User) => u.id != id, DistinctUserId);
      FilterPairwise(db.users, (u: User) => u.id != id, DistinctEmail);
      FilterPairwise(db.applications, (a: Application) => a.userId != id, DistinctApplicationId);
      FilterPairwise(db.applications, (a: Application) => a.userId != id, DistinctPair);
      DeleteUserReferences(db, id);
    }
  }

  /** The user delete, when it goes ahead, leaves no reference dangling. */
  lemma DeleteUserReferences(db: Db, id: nat)
    requires ReferencesPresent(db) && !UserReferenced(db, id)
    ensures DeleteUserCascade(db, id).Some? && ReferencesPresent(DeleteUserCascade(db, id).value)
  {
    var r := DeleteUserCascade(db, id).value;
    forall i | 0 <= i < |r.applications|
      ensures HasScholarship(r, r.applications[i].scholarshipId) && HasUser(r, r.applications[i].userId)
      ensures ReviewerPresent(r, r.applications[i])
    {
      var a := r.applications[i];
      var k :| 0 <= k < |db.applications| && db.applications[k] == a;
      var j :| 0 <= j < |db.users| && db.users[j].id == a.userId;
      StillUser(db, r, id, j);
      assert ReviewerPresent(db, db.applications[k]);
      if a.reviewedBy.Some? {
        assert a.reviewedBy != Some(id);
        var m :| 0 <= m < |db.users| && db.users[m].id == a.reviewedBy.value;
        StillUser(db, r, id, m);
      }
    }
    forall i | 0 <= i < |r.scholarships| ensures AuthorPresent(r, r.scholarships[i]) {
      var s := r.scholarships[i];
      assert AuthorPresent(db, db.scholarships[i]);
      if s.createdBy.Some? {
        assert s.createdBy != Some(id);
        var m :| 0 <= m < |db.users| && db.users[m].id == s.createdBy.value;
        StillUser(db, r, id, m);
      }
    }
  }

  /** A user other than the deleted one is still present afterwards. */
  lemma StillUser(db: Db, r: Db, id: nat, j: nat)
    requires j < |db.users| && db.users[j].id != id
    requires forall i :: 0 <= i < |db.users| && db.users[i].id != id ==> db.users[i] in r.users
    ensures HasUser(r, db.users[j].id)
  {
    var m :| 0 <= m < |r.users| && r.users[m] == db.users[j];
  }

  // Default administrator

  const DefaultAdminEmail: string := "admin@university.edu"

  predicate IsAdmin(u: User) { u.role == AdminRole }

  predicate EmailTaken(db: Db, email: string)
  {
    exists i :: 0 <= i < |db.users| && db.users[i].email == email
  }

  /** `createDefaultAdmin`: when `SELECT COUNT(*) .. WHERE role = 'admin'` is
      zero, insert the administrator; `hash` is the bcrypt hash of its
      password. If the e-mail is already taken, the INSERT violates
      UNIQUE(email), the error is logged and swallowed, and nothing changes. */
  function CreateDefaultAdmin(db: Db, hash: string): (r: Db)
    ensures r.scholarships == db.scholarships && r.applications == db.applications
    ensures |db.users| <= |r.users| <= |db.users| + 1 && r.users[..|db.users|] == db.users
  {
    if CountWhere(db.users, IsAdmin) == 0 && !EmailTaken(db, DefaultAdminEmail) then
      var admin := User(db.nextUserId, DefaultAdminEmail, hash, AdminRole, "System", "Administrator");
      db.(users := db.users + [admin], nextUserId := db.nextUserId + 1)
    else db
  }

  lemma {:induction false} CountZeroIffNone<T>(s: seq<T>, p: T -> bool)
    ensures CountWhere(s, p) == 0 <==> forall i :: 0 <= i < |s| ==> !p(s[i])
  {
    if s != [] {
      CountZeroIffNone(s[1..], p);
      assert forall i :: 0 < i < |s| ==> s[i] == s[1..][i - 1];
    }
  }

  /** The administrator is inserted exactly when no admin exists and its
      e-mail is free; afterwards an admin exists unless the e-mail was taken
      by a non-admin. */
  lemma CreateDefaultAdminEffect(db: Db, hash: string)
    ensures var r := CreateDefaultAdmin(db, hash);
      (|r.users| == |db.users| + 1 <==>
        (forall i :: 0 <= i < |db.users| ==> db.users[i].role != AdminRole) && !EmailTaken(db, DefaultAdminEmail))
    ensures var r := CreateDefaultAdmin(db, hash);
      !EmailTaken(db, DefaultAdminEmail) ==> exists i :: 0 <= i < |r.users| && r.users[i].role == AdminRole
  {
    CountZeroIffNone(db.users, IsAdmin);
    var r := CreateDefaultAdmin(db, hash);
    if |r.users| == |db.users| + 1 {
      assert r.users[|db.users|].role == AdminRole;
    }
  }

  /** Running the bootstrap a second time inserts nothing. */
  lemma CreateDefaultAdminIdempotent(db: Db, hash: string, hash2: string)
    ensures CreateDefaultAdmin(CreateDefaultAdmin(db, hash), hash2) == CreateDefaultAdmin(db, hash)
  {
    var r := CreateDefaultAdmin(db, hash);
    CountZeroIffNone(db.users, IsAdmin);
    CountZeroIffNone(r.users, IsAdmin);
    if r != db {
      assert IsAdmin(r.users[|db.users|]);
      assert r.users[|db.users|].email == DefaultAdminEmail;
    }
  }

  /** The bootstrap keeps every constraint. */
  lemma CreateDefaultAdminValid(db: Db, hash: string)
    requires Valid(db)
    ensures Valid(CreateDefaultAdmin(db, hash))
  {
    var r := CreateDefaultAdmin(db, hash);
    if r != db {
      var admin := r.users[|db.users|];
      assert r.users == db.users + [admin];
      PairwiseAppend(db.users, admin, DistinctUserId);
      PairwiseAppend(db.users, admin, DistinctEmail);
      forall i | 0 <= i < |r.applications|
        ensures HasUser(r, r.applications[i].userId)
      {
        var j :| 0 <= j < |db.users| && db.users[j].id == r.applications[i].userId;
        assert r.users[j] == db.users[j];
      }
    }
  }
}
