// Users, tokens and principals of the HTTP layer (http/auth.rs, http/middleware.rs).
module Auth {
  import opened Text
  import opened Paths

  datatype UserRow = UserRow(role: string, createdAt: int)
  datatype TokenRow = TokenRow(username: string, hash: string, name: Option<string>, createdAt: int,
                               expiresAt: Option<int>)

  /** The tables `users` and `tokens`. */
  datatype Tables = Tables(users: map<string, UserRow>, tokens: map<string, TokenRow>)

  datatype AuthResult =
    | Ok | InvalidUsername | InvalidRole | UserExists | UserNotFound | LastAdmin | TokenNotFound | DbError

  datatype Principal = RootPrincipal | UserPrincipal(username: string, role: string)

  /** The digest of a secret. */
  type Hash = string -> string

  const EMPTY: Tables := Tables(map[], map[])
  const ADMIN: string := "admin"

  // ---------------------------------------------------------------------------
  // Operations
  // ---------------------------------------------------------------------------

  predicate ValidRole(role: string) {
    role == "user" || role == ADMIN
  }

  function Admins(t: Tables): set<string> {
    set u | u in t.users && t.users[u].role == ADMIN
  }

  predicate HasAdmin(t: Tables) {
    Admins(t) != {}
  }

  /** No two tokens share a digest. */
  predicate HashTaken(t: Tables, hash: string) {
    exists id | id in t.tokens :: t.tokens[id].hash == hash
  }

  /** The tokens of a user go with it. */
  function WithoutUser(t: Tables, username: string): Tables {
    Tables(t.users - {username}, map id | id in t.tokens && t.tokens[id].username != username :: t.tokens[id])
  }

  datatype AuthOp =
    | CreateUser(username: string, role: string, now: int)
    | DeleteUser(username: string)
    | CreateToken(username: string, name: Option<string>, expiresAt: Option<int>, id: string, secret: string, now: int)
    | RevokeToken(id: string)

  /** One operation; `works` is false when the database itself fails. */
  function Step(hash: Hash, t: Tables, op: AuthOp, works: bool): (Tables, AuthResult) {
    match op
    case CreateUser(username, role, now) =>
      if !ValidUsername(username) then (t, InvalidUsername)
      else if !ValidRole(role) then (t, InvalidRole)
      else if !works then (t, DbError)
      else if username in t.users then (t, UserExists)
      else (t.(users := t.users[username := UserRow(role, now)]), Ok)
    case DeleteUser(username) =>
      if !works then (t, DbError)
      else if username !in t.users then (t, UserNotFound)
      else if t.users[username].role == ADMIN && |Admins(t)| <= 1 then (t, LastAdmin)
      else (WithoutUser(t, username), Ok)
    case CreateToken(username, name, expiresAt, id, secret, now) =>
      if !works then (t, DbError)
      else if username !in t.users then (t, UserNotFound)
      else if id in t.tokens || HashTaken(t, hash(secret)) then (t, DbError)
      else (t.(tokens := t.tokens[id := TokenRow(username, hash(secret), name, now, expiresAt)]), Ok)
    case RevokeToken(id) =>
      if !works then (t, DbError)
      else if id !in t.tokens then (t, TokenNotFound)
      else (t.(tokens := t.tokens - {id}), Ok)
  }

  /** The row `resolve_token` finds: the token with that digest, joined with its user. */
  predicate IsTokenOf(t: Tables, id: string, digest: string) {
    id in t.tokens && t.tokens[id].hash == digest && t.tokens[id].username in t.users
  }

  predicate Expired(token: TokenRow, now: int) {
    token.expiresAt.Some? && token.expiresAt.value < now
  }

  const BEARER: string := "Bearer "

  /** The secret in an `Authorization` header. */
  function Bearer(header: Option<string>): Option<string> {
    if header.Some? && BEARER <= header.value then Some(Trim(header.value[|BEARER|..])) else None
  }

  class AuthStore {
    var db: Tables
    const hash: Hash
    const rootHash: Option<string>

    constructor (hash: Hash, adminToken: Option<string>)
      ensures db == EMPTY && this.hash == hash
      ensures rootHash == if adminToken.None? then None else Some(hash(adminToken.value))
    {
      db := EMPTY;
      this.hash := hash;
      rootHash := if adminToken.None? then None else Some(hash(adminToken.value));
    }

    method Create(username: string, role: string, now: int, works: bool) returns (r: AuthResult)
      modifies this
      ensures (db, r) == Step(hash, old(db), CreateUser(username, role, now), works)
      ensures r == Ok <==> ValidUsername(username) && role in {"user", "admin"} && works && username !in old(db).users
      ensures r == InvalidUsername <==> !ValidUsername(username)
      ensures r == InvalidRole <==> ValidUsername(username) && role !in {"user", "admin"}
      ensures r == UserExists <==>
              ValidUsername(username) && role in {"user", "admin"} && works && username in old(db).users
      ensures r in {Ok, InvalidUsername, InvalidRole, UserExists, DbError}
      ensures db == if r == Ok then old(db).(users := old(db).users[username := UserRow(role, now)]) else old(db)
    {
      if !ValidUsername(username) {
        return InvalidUsername;
      }
      if !ValidRole(role) {
        return InvalidRole;
      }
      if !works {
        return DbError;
      }
      if username in db.users {
        return UserExists;
      }
      db := db.(users := db.users[username := UserRow(role, now)]);
      r := Ok;
    }

    /** Refuses to remove the last admin. */
    method Delete(username: string, works: bool) returns (r: AuthResult)
      modifies this
      ensures (db, r) == Step(hash, old(db), DeleteUser(username), works)
      ensures r == Ok <==> works && username in old(db).users && Admins(old(db)) != {username}
      ensures r == UserNotFound <==> works && username !in old(db).users
      ensures r == LastAdmin <==> works && Admins(old(db)) == {username}
      ensures r in {Ok, UserNotFound, LastAdmin, DbError}
      ensures r != Ok ==> db == old(db)
      ensures r == Ok ==> db.users == old(db).users - {username}
      ensures r == Ok ==>
                forall id :: id in db.tokens <==> id in old(db).tokens && old(db).tokens[id].username != username
      ensures forall id | id in db.tokens :: id in old(db).tokens && db.tokens[id] == old(db).tokens[id]
    {
      LastAdminIff(hash, db, username);
      if !works {
        return DbError;
      }
      if username !in db.users {
        return UserNotFound;
      }
      if db.users[username].role == ADMIN {
        if |Admins(db)| <= 1 {
          return LastAdmin;
        }
      }
      db := WithoutUser(db, username);
      r := Ok;
    }

    method Mint(username: string, name: Option<string>, expiresAt: Option<int>, id: string, secret: string, now: int,
                works: bool)
        returns (r: AuthResult)
      modifies this
      ensures (db, r) == Step(hash, old(db), CreateToken(username, name, expiresAt, id, secret, now), works)
      ensures r == Ok <==> && works && username in old(db).users && id !in old(db).tokens
                           && forall other | other in old(db).tokens :: old(db).tokens[other].hash != hash(secret)
      ensures r == UserNotFound <==> works && username !in old(db).users
      ensures r in {Ok, UserNotFound, DbError}
      ensures r != Ok ==> db == old(db)
      ensures r == Ok ==> db.users == old(db).users && db.tokens.Keys == old(db).tokens.Keys + {id}
      ensures r == Ok ==> RowOf(hash, db.tokens[id], CreateToken(username, name, expiresAt, id, secret, now))
      ensures forall other | other in old(db).tokens :: other in db.tokens && db.tokens[other] == old(db).tokens[other]
    {
      if !works {
        return DbError;
      }
      if username !in db.users {
        return UserNotFound;
      }
      var digest := hash(secret);
      if id in db.tokens || HashTaken(db, digest) {
        return DbError;
      }
      db := db.(tokens := db.tokens[id := TokenRow(username, digest, name, now, expiresAt)]);
      r := Ok;
    }

    method Revoke(id: string, works: bool) returns (r: AuthResult)
      modifies this
      ensures (db, r) == Step(hash, old(db), RevokeToken(id), works)
      ensures r == Ok <==> works && id in old(db).tokens
      ensures r == TokenNotFound <==> works && id !in old(db).tokens
      ensures r in {Ok, TokenNotFound, DbError}
      ensures db == if r == Ok then old(db).(tokens := old(db).tokens - {id}) else old(db)
    {
      if !works {
        return DbError;
      }
      if id !in db.tokens {
        return TokenNotFound;
      }
      db := db.(tokens := db.tokens - {id});
      r := Ok;
    }

    /** The user behind a secret, none if the secret is unknown or its token has expired. */
    method Resolve(secret: string, now: int) returns (p: Option<Principal>)
      requires Valid(db)
      ensures p == Resolved(db, hash(secret), now)
    {
      var digest := hash(secret);
      if id :| id in db.tokens && IsTokenOf(db, id, digest) {
        ResolvedIs(db, id, digest, now);
        var token := db.tokens[id];
        if Expired(token, now) {
          return None;
        }
        return Some(UserPrincipal(token.username, db.users[token.username].role));
      }
      p := None;
    }

    method VerifyRoot(secret: string) returns (matches: bool)
      ensures matches <==> rootHash == Some(hash(secret))
    {
      match rootHash
      case None => matches := false;
      case Some(expected) => matches := hash(secret) == expected;
    }

    /** The middleware: the root secret counts only until an admin exists. */
    method Authenticate(header: Option<string>, now: int) returns (p: Option<Principal>)
      requires Valid(db)
      ensures p == Authenticated(db, hash, rootHash, header, now)
      ensures p == Some(RootPrincipal) <==> RootSpeaks(db, hash, rootHash, header)
      ensures forall username, role ::
                p == Some(UserPrincipal(username, role)) <==>
                UserSpeaks(db, hash, rootHash, header, now, username, role)
    {
      SpeakerIff(db, hash, rootHash, header, now);
      var secret := Bearer(header);
      if secret.None? {
        return None;
      }
      var root := VerifyRoot(secret.value);
      if root && !HasAdmin(db) {
        return Some(RootPrincipal);
      }
      p := Resolve(secret.value, now);
    }
  }

  // ---------------------------------------------------------------------------
  // The invariant
  // ---------------------------------------------------------------------------

  /** Tokens belong to existing users, with digests of their own. */
  predicate Valid(t: Tables) {
    && (forall id | id in t.tokens :: t.tokens[id].username in t.users)
    && (forall id, other | id in t.tokens && other in t.tokens && id != other ::
          t.tokens[id].hash != t.tokens[other].hash)
  }

  lemma StepValid(hash: Hash, t: Tables, op: AuthOp, works: bool)
    requires Valid(t)
    ensures Valid(Step(hash, t, op, works).0)
  {
    var u := Step(hash, t, op, works).0;
    if op.CreateToken? && u != t {
      assert !HashTaken(t, hash(op.secret));
    }
  }

  /** What a digest resolves to. */
  ghost function Resolved(t: Tables, digest: string, now: int): Option<Principal> {
    if id :| IsTokenOf(t, id, digest) then
      if Expired(t.tokens[id], now) then None
      else Some(UserPrincipal(t.tokens[id].username, t.users[t.tokens[id].username].role))
    else None
  }

  lemma ResolvedIs(t: Tables, id: string, digest: string, now: int)
    requires Valid(t) && IsTokenOf(t, id, digest)
    ensures Resolved(t, digest, now)
            == if Expired(t.tokens[id], now) then None
               else Some(UserPrincipal(t.tokens[id].username, t.users[t.tokens[id].username].role))
  {}

  /** Who a request is made by; none means it is rejected. */
  ghost function Authenticated(t: Tables, hash: Hash, rootHash: Option<string>, header: Option<string>,
                               now: int): Option<Principal> {
    match Bearer(header)
    case None => None
    case Some(secret) =>
      if rootHash == Some(hash(secret)) && !HasAdmin(t) then Some(RootPrincipal) else Resolved(t, hash(secret), now)
  }

  /** No user is an admin, a root token is configured, and the header is `Bearer ` and the secret of it, white space
      around that aside. */
  ghost predicate RootSpeaks(t: Tables, hash: Hash, rootHash: Option<string>, header: Option<string>) {
    && (forall u | u in t.users :: t.users[u].role != "admin")
    && exists rest :: header == Some("Bearer " + rest) && rootHash == Some(hash(Trim(rest)))
  }

  /** The row of a token for the secret `rest` of the user, still good at `now`. */
  predicate TokenSpeaks(t: Tables, hash: Hash, rest: string, now: int, id: string, username: string, role: string) {
    && id in t.tokens && t.tokens[id].hash == hash(Trim(rest)) && t.tokens[id].username == username
    && username in t.users && t.users[username].role == role
    && (t.tokens[id].expiresAt.Some? ==> now <= t.tokens[id].expiresAt.value)
  }

  /** The header is `Bearer ` and the secret of such a token, and not taken for the root's. */
  ghost predicate UserSpeaks(t: Tables, hash: Hash, rootHash: Option<string>, header: Option<string>, now: int,
                             username: string, role: string) {
    && !RootSpeaks(t, hash, rootHash, header)
    && exists rest, id :: header == Some("Bearer " + rest) && TokenSpeaks(t, hash, rest, now, id, username, role)
  }

  lemma BearsIff(header: Option<string>, rest: string)
    ensures header == Some("Bearer " + rest) <==> Bearer(header).Some? && header.value[7..] == rest
    ensures header == Some("Bearer " + rest) ==> Bearer(header) == Some(Trim(rest))
  {
    if Bearer(header).Some? { assert header.value == BEARER + header.value[7..]; }
  }

  lemma NoAdminIff(t: Tables)
    ensures HasAdmin(t) <==> exists u :: u in t.users && t.users[u].role == "admin"
  {
    if u :| u in t.users && t.users[u].role == "admin" { assert u in Admins(t); }
  }

  /** Without the prefix nobody speaks. */
  lemma NobodyBears(t: Tables, hash: Hash, rootHash: Option<string>, header: Option<string>, now: int)
    requires Bearer(header).None?
    ensures !RootSpeaks(t, hash, rootHash, header)
    ensures forall username, role :: !UserSpeaks(t, hash, rootHash, header, now, username, role)
  {
    forall rest ensures header != Some("Bearer " + rest) { BearsIff(header, rest); }
  }

  lemma BearerIs(t: Tables, hash: Hash, rootHash: Option<string>, header: Option<string>, now: int, rest: string)
    requires header == Some("Bearer " + rest)
    ensures RootSpeaks(t, hash, rootHash, header) <==> !HasAdmin(t) && rootHash == Some(hash(Trim(rest)))
    ensures forall username, role ::
              UserSpeaks(t, hash, rootHash, header, now, username, role) <==>
              !RootSpeaks(t, hash, rootHash, header)
              && exists id :: TokenSpeaks(t, hash, rest, now, id, username, role)
  {
    NoAdminIff(t);
    forall other ensures header == Some("Bearer " + other) ==> other == rest {
      BearsIff(header, other);
      BearsIff(header, rest);
    }
  }

  lemma ResolvedSpeaks(t: Tables, hash: Hash, rest: string, now: int, username: string, role: string)
    requires Valid(t)
    ensures Resolved(t, hash(Trim(rest)), now) == Some(UserPrincipal(username, role))
            <==> exists id :: TokenSpeaks(t, hash, rest, now, id, username, role)
  {
    var digest := hash(Trim(rest));
    if id :| IsTokenOf(t, id, digest) {
      ResolvedIs(t, id, digest, now);
      if Resolved(t, digest, now) == Some(UserPrincipal(username, role)) {
        assert TokenSpeaks(t, hash, rest, now, id, username, role);
      }
    }
    if id :| TokenSpeaks(t, hash, rest, now, id, username, role) {
      ResolvedIs(t, id, digest, now);
    }
  }

  /** A request is taken for the root, or for a user, exactly if the header speaks for it; else it is rejected. */
  lemma SpeakerIff(t: Tables, hash: Hash, rootHash: Option<string>, header: Option<string>, now: int)
    requires Valid(t)
    ensures var p := Authenticated(t, hash, rootHash, header, now);
            && (p == Some(RootPrincipal) <==> RootSpeaks(t, hash, rootHash, header))
            && forall username, role ::
                 p == Some(UserPrincipal(username, role)) <==>
                 UserSpeaks(t, hash, rootHash, header, now, username, role)
  {
    if Bearer(header).None? {
      NobodyBears(t, hash, rootHash, header, now);
    } else {
      var rest := header.value[7..];
      BearsIff(header, rest);
      BearerIs(t, hash, rootHash, header, now, rest);
      forall username, role
        ensures Resolved(t, hash(Trim(rest)), now) == Some(UserPrincipal(username, role))
                <==> exists id :: TokenSpeaks(t, hash, rest, now, id, username, role)
      {
        ResolvedSpeaks(t, hash, rest, now, username, role);
      }
      NoRoot(t, hash(Trim(rest)), now);
    }
  }

  lemma NoRoot(t: Tables, digest: string, now: int)
    ensures Resolved(t, digest, now) != Some(RootPrincipal)
  {}

  // ---------------------------------------------------------------------------
  // Extractors
  // ---------------------------------------------------------------------------

  datatype Extracted = Granted(username: string, role: string) | AdminGranted | Forbidden | Unauthorized

  /** Routes in the name of a user. */
  function AuthUser(p: Option<Principal>): Extracted {
    match p
    case Some(UserPrincipal(username, role)) => Granted(username, role)
    case Some(RootPrincipal) => Forbidden
    case None => Unauthorized
  }

  /** Routes for admins. */
  function AdminPrincipal(p: Option<Principal>): Extracted {
    match p
    case Some(RootPrincipal) => AdminGranted
    case Some(UserPrincipal(_, role)) => if role == ADMIN then AdminGranted else Forbidden
    case None => Unauthorized
  }

  /** Routes of a user are open exactly to the user that speaks, routes for admins to the root and to users whose role
      is admin; the root is not let in as a user. */
  lemma RoutesIff(t: Tables, hash: Hash, rootHash: Option<string>, header: Option<string>, now: int)
    requires Valid(t)
    ensures var p := Authenticated(t, hash, rootHash, header, now);
            && (forall username, role ::
                  AuthUser(p) == Granted(username, role) <==>
                  UserSpeaks(t, hash, rootHash, header, now, username, role))
            && (AdminPrincipal(p) == AdminGranted <==>
                RootSpeaks(t, hash, rootHash, header)
                || exists username :: UserSpeaks(t, hash, rootHash, header, now, username, "admin"))
            && (AuthUser(p) == Unauthorized <==> AdminPrincipal(p) == Unauthorized)
            && (AuthUser(p) == Forbidden <==> RootSpeaks(t, hash, rootHash, header))
  {
    SpeakerIff(t, hash, rootHash, header, now);
    var p := Authenticated(t, hash, rootHash, header, now);
    if p.Some? && p.value.UserPrincipal? {
      assert UserSpeaks(t, hash, rootHash, header, now, p.value.username, p.value.role);
    }
  }

  // ---------------------------------------------------------------------------
  // Whole runs
  // ---------------------------------------------------------------------------

  datatype Event = Event(op: AuthOp, works: bool)

  /** The tables after the first `k` events. */
  function Run(hash: Hash, events: seq<Event>, k: nat): Tables
    requires k <= |events|
  {
    if k == 0 then EMPTY else Step(hash, Run(hash, events, k - 1), events[k - 1].op, events[k - 1].works).0
  }

  lemma {:induction false} RunValid(hash: Hash, events: seq<Event>, k: nat)
    requires k <= |events|
    ensures Valid(Run(hash, events, k))
  {
    if k > 0 {
      RunValid(hash, events, k - 1);
      StepValid(hash, Run(hash, events, k - 1), events[k - 1].op, events[k - 1].works);
    }
  }

  lemma AdminStays(hash: Hash, t: Tables, op: AuthOp, works: bool)
    requires HasAdmin(t)
    ensures HasAdmin(Step(hash, t, op, works).0)
  {
    var u := Step(hash, t, op, works).0;
    match op
    case CreateUser(username, _, _) =>
      var a :| a in Admins(t);
      assert a in Admins(u);
    case DeleteUser(username) =>
      if u != t {
        if username in Admins(t) {
          assert |Admins(t) - {username}| == |Admins(t)| - 1;
          var a :| a in Admins(t) - {username};
          assert a in Admins(u);
        } else {
          var a :| a in Admins(t);
          assert a in Admins(u);
        }
      }
    case CreateToken(_, _, _, _, _, _) => assert Admins(u) == Admins(t);
    case RevokeToken(_) => assert Admins(u) == Admins(t);
  }

  /** A deletion is refused as the last admin's exactly if the user is the only admin. */
  lemma LastAdminIff(hash: Hash, t: Tables, username: string)
    ensures Step(hash, t, DeleteUser(username), true).1 == LastAdmin <==> Admins(t) == {username}
  {
    if username in Admins(t) {
      assert |Admins(t) - {username}| == |Admins(t)| - 1;
      assert Admins(t) == (Admins(t) - {username}) + {username};
    }
  }

  /** Once there is an admin there is one in every later state. */
  lemma {:induction false} AdminForever(hash: Hash, events: seq<Event>, j: nat, k: nat)
    requires j <= k <= |events| && HasAdmin(Run(hash, events, j))
    ensures HasAdmin(Run(hash, events, k))
    decreases k
  {
    if j < k {
      AdminForever(hash, events, j, k - 1);
      AdminStays(hash, Run(hash, events, k - 1), events[k - 1].op, events[k - 1].works);
    }
  }

  /** So from the first admin on no request whatsoever is taken for the root, and admin routes are open exactly to
      the tokens of users whose role is admin. */
  lemma RootNeverAgain(hash: Hash, rootHash: Option<string>, events: seq<Event>, j: nat, k: nat,
                       header: Option<string>, now: int)
    requires j <= k <= |events| && HasAdmin(Run(hash, events, j))
    ensures var p := Authenticated(Run(hash, events, k), hash, rootHash, header, now);
            && p != Some(RootPrincipal)
            && (AdminPrincipal(p) == AdminGranted <==> p.Some? && p.value.role == ADMIN)
            && (AuthUser(p).Granted? <==> p.Some?)
  {
    AdminForever(hash, events, j, k);
  }

  // ---------------------------------------------------------------------------
  // Which tokens exist
  // ---------------------------------------------------------------------------

  /** Event `i` of a run succeeds. */
  predicate Succeeds(hash: Hash, events: seq<Event>, i: nat)
    requires i < |events|
  {
    Step(hash, Run(hash, events, i), events[i].op, events[i].works).1 == Ok
  }

  /** Event `i` mints token `id`. */
  predicate Mints(hash: Hash, events: seq<Event>, i: nat, id: string)
    requires i < |events|
  {
    events[i].op.CreateToken? && events[i].op.id == id && Succeeds(hash, events, i)
  }

  /** Event `j` ends token `id` of `username`: by revoking it or by deleting the user. */
  predicate EndsToken(hash: Hash, events: seq<Event>, j: nat, id: string, username: string)
    requires j < |events|
  {
    Succeeds(hash, events, j) && (events[j].op == RevokeToken(id) || events[j].op == DeleteUser(username))
  }

  /** Token `id`, minted by event `i`, was neither revoked nor lost its user up to event `k`. */
  predicate Alive(hash: Hash, events: seq<Event>, i: nat, k: nat, id: string)
    requires k <= |events|
  {
    i < k && Mints(hash, events, i, id)
        && forall j | i < j < k :: !EndsToken(hash, events, j, id, events[i].op.username)
  }

  predicate RowOf(hash: Hash, row: TokenRow, op: AuthOp) {
    op.CreateToken? && row == TokenRow(op.username, hash(op.secret), op.name, op.now, op.expiresAt)
  }

  /** The event that minted the token `id` there is. */
  function Minter(hash: Hash, events: seq<Event>, k: nat, id: string): (m: Option<nat>)
    requires k <= |events|
    ensures m.Some? ==> m.value < k && events[m.value].op.CreateToken?
  {
    if k == 0 then None
    else if Mints(hash, events, k - 1, id) then Some(k - 1)
    else
      var m := Minter(hash, events, k - 1, id);
      if m.Some? && !EndsToken(hash, events, k - 1, id, events[m.value].op.username) then m else None
  }

  /** What one event does to a token that was there before. */
  lemma TokenStep(hash: Hash, t: Tables, e: Event, id: string)
    requires Valid(t) && id in t.tokens
    ensures var after := Step(hash, t, e.op, e.works);
            var ends := after.1 == Ok && (e.op == RevokeToken(id) || e.op == DeleteUser(t.tokens[id].username));
            && (id in after.0.tokens <==> !ends) && (!ends ==> after.0.tokens[id] == t.tokens[id])
            && !(after.1 == Ok && e.op.CreateToken? && e.op.id == id)
  {}

  /** And to one that was not. */
  lemma NoTokenStep(hash: Hash, t: Tables, e: Event, id: string)
    requires id !in t.tokens
    ensures var after := Step(hash, t, e.op, e.works);
            && (id in after.0.tokens <==> after.1 == Ok && e.op.CreateToken? && e.op.id == id)
            && (id in after.0.tokens ==> RowOf(hash, after.0.tokens[id], e.op))
  {}

  lemma {:induction false} TokenIsMinters(hash: Hash, events: seq<Event>, k: nat, id: string)
    requires k <= |events|
    ensures var t, m := Run(hash, events, k), Minter(hash, events, k, id);
            (id in t.tokens <==> m.Some?) && (m.Some? ==> RowOf(hash, t.tokens[id], events[m.value].op))
  {
    if k > 0 {
      var t := Run(hash, events, k - 1);
      TokenIsMinters(hash, events, k - 1, id);
      RunValid(hash, events, k - 1);
      if id in t.tokens {
        TokenStep(hash, t, events[k - 1], id);
      } else {
        NoTokenStep(hash, t, events[k - 1], id);
      }
    }
  }

  /** A token that exists is not minted again. */
  lemma NotMintedAgain(hash: Hash, events: seq<Event>, k: nat, id: string)
    requires k < |events| && Minter(hash, events, k, id).Some?
    ensures !Mints(hash, events, k, id)
  {
    TokenIsMinters(hash, events, k, id);
    RunValid(hash, events, k);
    TokenStep(hash, Run(hash, events, k), events[k], id);
  }

  /** A token minted before the last event stays alive exactly unless that event ends it. */
  lemma AliveStep(hash: Hash, events: seq<Event>, i: nat, k: nat, id: string)
    requires i < k < |events| && Mints(hash, events, i, id)
    ensures Alive(hash, events, i, k + 1, id)
            <==> Alive(hash, events, i, k, id) && !EndsToken(hash, events, k, id, events[i].op.username)
  {}

  lemma MinterStep(hash: Hash, events: seq<Event>, k: nat, id: string, i: nat)
    requires k < |events|
    requires Minter(hash, events, k, id) == Some(i) <==> Alive(hash, events, i, k, id)
    ensures Minter(hash, events, k + 1, id) == Some(i) <==> Alive(hash, events, i, k + 1, id)
  {
    if i < k && Mints(hash, events, i, id) {
      AliveStep(hash, events, i, k, id);
      if Minter(hash, events, k, id).Some? { NotMintedAgain(hash, events, k, id); }
    }
  }

  lemma {:induction false} MinterIff(hash: Hash, events: seq<Event>, k: nat, id: string, i: nat)
    requires k <= |events|
    ensures Minter(hash, events, k, id) == Some(i) <==> Alive(hash, events, i, k, id)
  {
    if k > 0 {
      MinterIff(hash, events, k - 1, id, i);
      MinterStep(hash, events, k - 1, id, i);
    }
  }

  /** A token exists exactly if it was minted and neither revoked nor its user deleted since, even if a user of the
      same name was created again; and it is as it was minted. */
  lemma TokenIff(hash: Hash, events: seq<Event>, k: nat, id: string)
    requires k <= |events|
    ensures id in Run(hash, events, k).tokens <==> exists i: nat :: Alive(hash, events, i, k, id)
    ensures forall i: nat | Alive(hash, events, i, k, id) ::
              id in Run(hash, events, k).tokens && RowOf(hash, Run(hash, events, k).tokens[id], events[i].op)
  {
    TokenIsMinters(hash, events, k, id);
    forall i: nat
      ensures Minter(hash, events, k, id) == Some(i) <==> Alive(hash, events, i, k, id)
    {
      MinterIff(hash, events, k, id, i);
    }
    var m := Minter(hash, events, k, id);
    if m.Some? { assert Alive(hash, events, m.value, k, id); }
  }

  ghost predicate Injective(hash: Hash) {
    forall a, b :: hash(a) == hash(b) ==> a == b
  }

  /** A token for `secret` was minted for `username` by event `i` and still counts at `now`. */
  predicate Vouches(hash: Hash, events: seq<Event>, i: nat, k: nat, secret: string, username: string, now: int)
    requires k <= |events|
  {
    && i < k && events[i].op.CreateToken? && Alive(hash, events, i, k, events[i].op.id)
    && events[i].op.secret == secret && events[i].op.username == username
    && (events[i].op.expiresAt.Some? ==> events[i].op.expiresAt.value >= now)
  }

  lemma ResolvesVouched(hash: Hash, events: seq<Event>, k: nat, secret: string, username: string, now: int)
    requires k <= |events| && Injective(hash)
    requires Resolved(Run(hash, events, k), hash(secret), now).Some?
    requires Resolved(Run(hash, events, k), hash(secret), now).value.username == username
    ensures exists i: nat :: Vouches(hash, events, i, k, secret, username, now)
  {
    var t := Run(hash, events, k);
    RunValid(hash, events, k);
    var id :| IsTokenOf(t, id, hash(secret));
    ResolvedIs(t, id, hash(secret), now);
    TokenIff(hash, events, k, id);
    var i: nat :| Alive(hash, events, i, k, id);
    assert RowOf(hash, t.tokens[id], events[i].op);
    assert Vouches(hash, events, i, k, secret, username, now);
  }

  lemma VouchedResolves(hash: Hash, events: seq<Event>, i: nat, k: nat, secret: string, username: string, now: int)
    requires k <= |events| && Vouches(hash, events, i, k, secret, username, now)
    ensures username in Run(hash, events, k).users
    ensures Resolved(Run(hash, events, k), hash(secret), now)
            == Some(UserPrincipal(username, Run(hash, events, k).users[username].role))
  {
    var t, id := Run(hash, events, k), events[i].op.id;
    RunValid(hash, events, k);
    TokenIff(hash, events, k, id);
    assert RowOf(hash, t.tokens[id], events[i].op);
    ResolvedIs(t, id, hash(secret), now);
  }

  /** A secret resolves to a user exactly if a token for it was minted for that user, not revoked, not expired, and
      the user not deleted since; the role is the one the user has. */
  lemma ResolvesIff(hash: Hash, events: seq<Event>, k: nat, secret: string, username: string, role: string, now: int)
    requires k <= |events| && Injective(hash)
    ensures Resolved(Run(hash, events, k), hash(secret), now) == Some(UserPrincipal(username, role))
            <==> (exists i: nat :: Vouches(hash, events, i, k, secret, username, now))
                 && username in Run(hash, events, k).users && Run(hash, events, k).users[username].role == role
  {
    if Resolved(Run(hash, events, k), hash(secret), now) == Some(UserPrincipal(username, role)) {
      ResolvesVouched(hash, events, k, secret, username, now);
    }
    if i: nat :| Vouches(hash, events, i, k, secret, username, now) {
      VouchedResolves(hash, events, i, k, secret, username, now);
    }
  }

  /** The header is `Bearer ` and a secret that a token vouches for. */
  ghost predicate Vouched(hash: Hash, events: seq<Event>, k: nat, header: Option<string>, username: string, now: int)
    requires k <= |events|
  {
    exists rest, i: nat :: header == Some("Bearer " + rest) && Vouches(hash, events, i, k, Trim(rest), username, now)
  }

  /** In any run a request is a user's exactly if its header is not taken for the root's and carries a secret for which
      a token was minted for that user that still counts. */
  lemma RequestIff(hash: Hash, rootHash: Option<string>, events: seq<Event>, k: nat, header: Option<string>, now: int,
                   username: string, role: string)
    requires k <= |events| && Injective(hash)
    ensures var t := Run(hash, events, k);
            Authenticated(t, hash, rootHash, header, now) == Some(UserPrincipal(username, role))
            <==> && !RootSpeaks(t, hash, rootHash, header) && Vouched(hash, events, k, header, username, now)
                 && username in t.users && t.users[username].role == role
  {
    var t := Run(hash, events, k);
    RunValid(hash, events, k);
    SpeakerIff(t, hash, rootHash, header, now);
    if Bearer(header).None? {
      forall rest ensures header != Some("Bearer " + rest) { BearsIff(header, rest); }
    } else {
      var rest := header.value[7..];
      BearsIff(header, rest);
      BearerIs(t, hash, rootHash, header, now, rest);
      ResolvedSpeaks(t, hash, rest, now, username, role);
      ResolvesIff(hash, events, k, Trim(rest), username, role, now);
      forall other ensures header == Some("Bearer " + other) ==> other == rest { BearsIff(header, other); }
    }
  }
}
