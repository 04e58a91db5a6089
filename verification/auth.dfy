/** The authentication middleware: bearer-token extraction from the
    Authorization header, the 401/403 decision of `authenticateToken`, and
    `requireAdmin`. Signature and expiry checking of the token is an oracle
    `verify` that answers the user id the token carries, or `None` when the
    token does not verify. */
module Auth {
  import opened Common
  import opened Seqs
  import opened Text
  import opened Schema

  /** The user attached to the request: the columns the middleware selects. */
  datatype Identity = Identity(id: nat, email: string, role: Role, firstName: string, lastName: string)

  function IdentityOf(u: User): Identity
  {
    Identity(u.id, u.email, u.role, u.firstName, u.lastName)
  }

  /** `authHeader && authHeader.split(' ')[1]`, where an empty result counts as no token. */
  function BearerToken(header: Option<string>): (token: Option<string>)
    ensures token.Some? ==> token.value != [] && ' ' !in token.value
  {
    match header
    case None => None
    case Some(h) =>
      var parts := Split(h, ' ');
      SplitJoin(h, ' ');
      if |parts| >= 2 && parts[1] != [] then Some(parts[1]) else None
  }

  /** A header made of space-free pieces joined by single spaces (such as
      `Bearer <token>`) yields its second piece, unless that piece is empty. */
  lemma BearerTokenOfHeader(pieces: seq<string>)
    requires |pieces| >= 2
    requires forall k :: 0 <= k < |pieces| ==> ' ' !in pieces[k]
    ensures BearerToken(Some(Join(pieces, ' '))) == if pieces[1] == [] then None else Some(pieces[1])
  {
    JoinSplit(pieces, ' ');
  }

  /** A header without a space carries no token. */
  lemma BearerTokenNeedsSpace(h: string)
    requires ' ' !in h
    ensures BearerToken(Some(h)) == None
  {
  }

  /** Where the token sits: after the first space, up to the next space or the end. */
  lemma BearerTokenIsSecondPiece(h: string, token: string)
    requires BearerToken(Some(h)) == Some(token)
    ensures exists first, after :: TokenAt(h, first, token, after)
  {
    var parts := Split(h, ' ');
    assert |parts| >= 2 && parts[1] == token;
    assert ' ' !in parts[0];
    assert h == Join(parts, ' ') by { SplitJoin(h, ' '); }
    var after := if |parts| == 2 then [] else [' '] + Join(parts[2..], ' ');
    SecondPieceLayout(parts, ' ');
    assert TokenAt(h, parts[0], token, after);
  }

  /** `h` is `first`, one space, `token`, then nothing or a space and more. */
  ghost predicate TokenAt(h: string, first: string, token: string, after: string)
  {
    ' ' !in first && h == first + [' '] + token + after && (after == [] || after[0] == ' ')
  }

  /** A join of two or more pieces is the first piece, a separator, the
      second piece, then nothing or a separator and the rest. */
  lemma SecondPieceLayout(parts: seq<string>, sep: char)
    requires |parts| >= 2
    ensures Join(parts, sep) == parts[0] + [sep] + parts[1] +
      (if |parts| == 2 then [] else [sep] + Join(parts[2..], sep))
  {
    assert parts[1..][0] == parts[1];
    assert parts[1..][1..] == parts[2..];
    var rest := if |parts| == 2 then [] else [sep] + Join(parts[2..], sep);
    assert Join(parts[1..], sep) == parts[1] + rest;
    assert parts[0] + [sep] + (parts[1] + rest) == parts[0] + [sep] + parts[1] + rest;
  }

  predicate HasId(id: nat, u: User) { u.id == id }

  /** `authenticateToken`: no token gives 401; a token that fails
      verification gives 403; a verified token whose user id has no row
      gives 401; otherwise the user's row is attached. */
  function Authenticate(db: Db, header: Option<string>, verify: string -> Option<nat>): (r: Result<Identity>)
    ensures BearerToken(header).None? ==> r == Err(Unauthenticated)
    ensures BearerToken(header).Some? && verify(BearerToken(header).value).None? ==> r == Err(InvalidToken)
    ensures BearerToken(header).Some? && verify(BearerToken(header).value).Some? ==>
      var uid := verify(BearerToken(header).value).value;
      && (r == Err(Unauthenticated) <==> forall i :: 0 <= i < |db.users| ==> db.users[i].id != uid)
      && (r.Ok? ==> r.value.id == uid && exists i :: 0 <= i < |db.users| && IdentityOf(db.users[i]) == r.value)
  {
    match BearerToken(header)
    case None => Err(Unauthenticated)
    case Some(token) =>
      match verify(token)
      case None => Err(InvalidToken)
      case Some(uid) =>
        match Find(db.users, (u: User) => HasId(uid, u))
        case None => Err(Unauthenticated)
        case Some(u) => Ok(IdentityOf(u))
  }

  /** `requireAdmin`: passes the identity through iff its role is admin. */
  function RequireAdmin(who: Identity): (r: Result<Identity>)
    ensures r.Ok? <==> who.role == AdminRole
    ensures r.Ok? ==> r.value == who
    ensures r.Err? ==> r.failure == Forbidden
  {
    if who.role == AdminRole then Ok(who) else Err(Forbidden)
  }

  /** The gate in front of every admin route: authenticate, then require admin. */
  function AdminGate(db: Db, header: Option<string>, verify: string -> Option<nat>): (r: Result<Identity>)
    ensures r.Ok? ==> r.value.role == AdminRole && Authenticate(db, header, verify) == Ok(r.value)
    ensures Authenticate(db, header, verify).Err? ==> r == Authenticate(db, header, verify)
    ensures Authenticate(db, header, verify).Ok? && Authenticate(db, header, verify).value.role == AdminRole ==>
      r == Authenticate(db, header, verify)
    ensures Authenticate(db, header, verify).Ok? && Authenticate(db, header, verify).value.role != AdminRole ==>
      r == Err(Forbidden)
  {
    match Authenticate(db, header, verify)
    case Err(f) => Err(f)
    case Ok(who) => RequireAdmin(who)
  }

  /** An admin route answers 401 without a token and 403 to an authenticated non-admin. */
  lemma AdminGateCodes(db: Db, header: Option<string>, verify: string -> Option<nat>)
    ensures header.None? ==> Code(AdminGate(db, header, verify).failure) == 401
    ensures Authenticate(db, header, verify).Ok? && Authenticate(db, header, verify).value.role == UserRole ==>
      AdminGate(db, header, verify) == Err(Forbidden) && Code(Forbidden) == 403
  {
  }
}
