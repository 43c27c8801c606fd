/** Registration, e-mail verification and login of `authController.js`, as
    transitions over the `users` table. The password hasher, the password
    check, the random token, the token signer and the mailer are not modelled:
    their results are parameters. */
module Accounts {
  import opened Wrappers
  import opened Tables

  /** `!x` on a request field: absent or the empty string. */
  predicate Missing(x: Option<string>) {
    x.None? || x == Some("")
  }

  /** `SELECT ... FROM users WHERE email = ?` and its first row. */
  function FindByEmail(rows: seq<User>, email: string): (r: Option<User>)
    ensures r.Some? ==> r.value in rows && r.value.email == email
    ensures r.None? <==> forall u :: u in rows ==> u.email != email
  {
    if rows == [] then None
    else if rows[0].email == email then Some(rows[0])
    else FindByEmail(rows[1..], email)
  }

  /** `SELECT id, is_verified FROM users WHERE verification_token = ?` and its
      first row; a NULL token matches nothing. */
  function FindByToken(rows: seq<User>, token: string): (r: Option<User>)
    ensures r.Some? ==> r.value in rows && r.value.verificationToken == Some(token)
    ensures r.None? <==> forall u :: u in rows ==> u.verificationToken != Some(token)
  {
    if rows == [] then None
    else if rows[0].verificationToken == Some(token) then Some(rows[0])
    else FindByToken(rows[1..], token)
  }

  /** `DELETE FROM users WHERE id = ?`. */
  function RemoveUser(rows: seq<User>, id: int): (r: seq<User>)
    ensures forall u :: u in r <==> u in rows && u.id != id
  {
    if rows == [] then []
    else (if rows[0].id == id then [] else [rows[0]]) + RemoveUser(rows[1..], id)
  }

  /** Deleting an id no earlier row carries removes just the appended row. */
  lemma {:induction false} RemoveAppended(rows: seq<User>, u: User)
    requires forall v :: v in rows ==> v.id != u.id
    ensures RemoveUser(rows + [u], u.id) == rows
  {
    if rows == [] {
      assert [u][1..] == [];
    } else {
      var r := rows + [u];
      assert rows[0] in rows;
      assert r[0] == rows[0] && r[1..] == rows[1..] + [u];
      assert forall v :: v in rows[1..] ==> v in rows;
      RemoveAppended(rows[1..], u);
      assert RemoveUser(r, u.id) == [rows[0]] + RemoveUser(r[1..], u.id);
      assert [rows[0]] + rows[1..] == rows;
    }
  }

  /** No two users share an e-mail address. */
  ghost predicate UniqueEmails(rows: seq<User>) {
    forall i, j :: 0 <= i < j < |rows| ==> rows[i].email != rows[j].email
  }

  /** Only unverified users hold a verification token. */
  ghost predicate VerifiedHoldNoToken(rows: seq<User>) {
    forall i :: 0 <= i < |rows| && rows[i].isVerified ==> rows[i].verificationToken.None?
  }

  datatype RegisterResult =
    | FieldsRequired   // 400 "All fields are required"
    | EmailTaken       // 400 "Email already registered"
    | MailFailed       // 500 "Failed to send verification email"
    | Registered       // "Registration successful. Please check your email."

  /** The row `register` inserts: the hash of the password, a fresh token,
      not yet verified, and the column default for the role. */
  function NewUser(id: nat, name: string, email: string, hashed: string, token: string, defaultRole: string): User {
    User(id, name, email, hashed, Some(token), false, defaultRole)
  }

  /** `register`: the field check, the e-mail check, the insert, and the
      compensating delete when the mail (whose outcome is `mailSent`) fails. */
  function Register(t: UserTable, name: Option<string>, email: Option<string>, password: Option<string>,
                    hash: string -> string, token: string, defaultRole: string, mailSent: bool): (r: (RegisterResult, UserTable))
    ensures r.0 == FieldsRequired <==> Missing(name) || Missing(email) || Missing(password)
    ensures r.0 == EmailTaken <==>
              !Missing(name) && !Missing(email) && !Missing(password) && FindByEmail(t.rows, email.value).Some?
    ensures r.0 == MailFailed <==>
              !Missing(name) && !Missing(email) && !Missing(password) && FindByEmail(t.rows, email.value).None? && !mailSent
    ensures r.0 == FieldsRequired || r.0 == EmailTaken ==> r.1 == t
    ensures r.0 == Registered ==>
              r.1 == UserTable(t.rows + [NewUser(t.nextId, name.value, email.value, hash(password.value), token, defaultRole)],
                               t.nextId + 1)
    ensures r.0 == MailFailed ==>
              r.1 == UserTable(RemoveUser(t.rows + [NewUser(t.nextId, name.value, email.value, hash(password.value), token, defaultRole)],
                                          t.nextId),
                               t.nextId + 1)
  {
    if Missing(name) || Missing(email) || Missing(password) then (FieldsRequired, t)
    else if FindByEmail(t.rows, email.value).Some? then (EmailTaken, t)
    else
      var u := NewUser(t.nextId, name.value, email.value, hash(password.value), token, defaultRole);
      var inserted := UserTable(t.rows + [u], t.nextId + 1);
      if mailSent then (Registered, inserted)
      else (MailFailed, inserted.(rows := RemoveUser(inserted.rows, u.id)))
  }

  /** A failed mail restores the users' rows; only the AUTO_INCREMENT counter
      has moved on. */
  lemma MailFailureRestoresRows(t: UserTable, name: Option<string>, email: Option<string>, password: Option<string>,
                                hash: string -> string, token: string, defaultRole: string)
    requires t.Valid()
    requires Register(t, name, email, password, hash, token, defaultRole, false).0 == MailFailed
    ensures Register(t, name, email, password, hash, token, defaultRole, false).1 == UserTable(t.rows, t.nextId + 1)
  {
    var u := NewUser(t.nextId, name.value, email.value, hash(password.value), token, defaultRole);
    forall v | v in t.rows
      ensures v.id != u.id
    {
      var i :| 0 <= i < |t.rows| && t.rows[i] == v;
      assert UserIds(t.rows)[i] == v.id;
    }
    RemoveAppended(t.rows, u);
  }

  /** A registration, completed or compensated, keeps the table keyed. */
  lemma RegisterKeepsIds(t: UserTable, name: Option<string>, email: Option<string>, password: Option<string>,
                         hash: string -> string, token: string, defaultRole: string, mailSent: bool)
    requires t.Valid()
    ensures Register(t, name, email, password, hash, token, defaultRole, mailSent).1.Valid()
  {
    var (res, t1) := Register(t, name, email, password, hash, token, defaultRole, mailSent);
    if res == MailFailed {
      MailFailureRestoresRows(t, name, email, password, hash, token, defaultRole);
      assert UserIds(t1.rows) == UserIds(t.rows);
    } else if res == Registered {
      assert UserIds(t1.rows) == UserIds(t.rows) + [t.nextId];
      AppendKeepsIdsValid(UserIds(t.rows), t.nextId);
    }
  }

  /** Sequential registrations keep the table keyed, e-mail addresses unique,
      and tokens only on unverified users. */
  lemma RegisterKeepsInvariants(t: UserTable, name: Option<string>, email: Option<string>, password: Option<string>,
                                hash: string -> string, token: string, defaultRole: string, mailSent: bool)
    requires t.Valid() && UniqueEmails(t.rows) && VerifiedHoldNoToken(t.rows)
    ensures var t1 := Register(t, name, email, password, hash, token, defaultRole, mailSent).1;
            t1.Valid() && UniqueEmails(t1.rows) && VerifiedHoldNoToken(t1.rows)
  {
    var (res, t1) := Register(t, name, email, password, hash, token, defaultRole, mailSent);
    if res == MailFailed {
      MailFailureRestoresRows(t, name, email, password, hash, token, defaultRole);
      assert UserIds(t1.rows) == UserIds(t.rows);
    } else if res == Registered {
      assert UserIds(t1.rows) == UserIds(t.rows) + [t.nextId];
      AppendKeepsIdsValid(UserIds(t.rows), t.nextId);
      forall i, j | 0 <= i < j < |t1.rows|
        ensures t1.rows[i].email != t1.rows[j].email
      {
        assert t1.rows[i] == t.rows[i];
        if j < |t.rows| {
          assert t1.rows[j] == t.rows[j];
        } else {
          assert t.rows[i] in t.rows;
        }
      }
    }
  }

  datatype VerifyResult =
    | TokenErased      // 400 "token erased"
    | AlreadyVerified  // "Email already verified."
    | Verified         // "Email verified successfully!"

  /** `UPDATE users SET is_verified = 1, verification_token = NULL WHERE id = ?`. */
  function MarkVerified(rows: seq<User>, id: int): (r: seq<User>)
    ensures |r| == |rows|
    ensures forall i :: 0 <= i < |rows| ==>
              r[i] == if rows[i].id == id then rows[i].(isVerified := true, verificationToken := None) else rows[i]
  {
    if rows == [] then []
    else
      var u := rows[0];
      [if u.id == id then u.(isVerified := true, verificationToken := None) else u] + MarkVerified(rows[1..], id)
  }

  /** `verifyEmail`: the token's holder becomes verified and loses the token. */
  function VerifyEmail(t: UserTable, token: string): (r: (VerifyResult, UserTable))
    ensures r.0 == TokenErased <==> FindByToken(t.rows, token).None?
    ensures r.0 == AlreadyVerified <==> FindByToken(t.rows, token).Some? && FindByToken(t.rows, token).value.isVerified
    ensures r.0 != Verified ==> r.1 == t
    ensures r.0 == Verified ==> r.1 == t.(rows := MarkVerified(t.rows, FindByToken(t.rows, token).value.id))
  {
    match FindByToken(t.rows, token)
    case None => (TokenErased, t)
    case Some(u) =>
      if u.isVerified then (AlreadyVerified, t)
      else (Verified, t.(rows := MarkVerified(t.rows, u.id)))
  }

  /** While only unverified users hold tokens, "already verified" cannot be answered. */
  lemma AlreadyVerifiedUnreachable(t: UserTable, token: string)
    requires VerifiedHoldNoToken(t.rows)
    ensures VerifyEmail(t, token).0 != AlreadyVerified
  {
    if FindByToken(t.rows, token).Some? {
      var u := FindByToken(t.rows, token).value;
      var i :| 0 <= i < |t.rows| && t.rows[i] == u;
    }
  }

  /** Verification keeps the table keyed, e-mail addresses unique and tokens
      only on unverified users. */
  lemma VerifyKeepsInvariants(t: UserTable, token: string)
    requires t.Valid() && UniqueEmails(t.rows) && VerifiedHoldNoToken(t.rows)
    ensures var t1 := VerifyEmail(t, token).1;
            t1.Valid() && UniqueEmails(t1.rows) && VerifiedHoldNoToken(t1.rows)
  {
    var (res, t1) := VerifyEmail(t, token);
    if res == Verified {
      var id := FindByToken(t.rows, token).value.id;
      MarkVerifiedKeeps(t.rows, id);
      assert t1.rows == MarkVerified(t.rows, id);
    }
  }

  /** Verification keeps the table keyed. */
  lemma VerifyKeepsIds(t: UserTable, token: string)
    requires t.Valid()
    ensures VerifyEmail(t, token).1.Valid()
  {
    if VerifyEmail(t, token).0 == Verified {
      MarkVerifiedKeeps(t.rows, FindByToken(t.rows, token).value.id);
    }
  }

  /** Marking a user verified changes neither ids nor e-mail addresses, and
      clears the token it sets verified. */
  lemma MarkVerifiedKeeps(rows: seq<User>, id: int)
    ensures UserIds(MarkVerified(rows, id)) == UserIds(rows)
    ensures UniqueEmails(rows) ==> UniqueEmails(MarkVerified(rows, id))
    ensures VerifiedHoldNoToken(rows) ==> VerifiedHoldNoToken(MarkVerified(rows, id))
  {
    var r := MarkVerified(rows, id);
    forall i | 0 <= i < |rows|
      ensures r[i].id == rows[i].id && r[i].email == rows[i].email
      ensures r[i].isVerified ==> (rows[i].isVerified && r[i].verificationToken == rows[i].verificationToken) || r[i].verificationToken.None?
    {
    }
  }

  /** With the token held by one user only, a verified token cannot be used again. */
  lemma VerifyTwiceFails(t: UserTable, token: string)
    requires forall i, j :: 0 <= i < j < |t.rows| && t.rows[i].verificationToken == Some(token) ==>
               t.rows[j].verificationToken != Some(token)
    requires VerifyEmail(t, token).0 == Verified
    ensures VerifyEmail(VerifyEmail(t, token).1, token).0 == TokenErased
  {
    var holder := FindByToken(t.rows, token).value;
    var k :| 0 <= k < |t.rows| && t.rows[k] == holder;
    NoTokenAfterMark(t.rows, k, token);
  }

  /** Marking the only holder of a token verified leaves nobody holding it. */
  lemma NoTokenAfterMark(rows: seq<User>, k: nat, token: string)
    requires k < |rows| && rows[k].verificationToken == Some(token)
    requires forall i, j :: 0 <= i < j < |rows| && rows[i].verificationToken == Some(token) ==>
               rows[j].verificationToken != Some(token)
    ensures FindByToken(MarkVerified(rows, rows[k].id), token).None?
  {
    var marked := MarkVerified(rows, rows[k].id);
    forall i | 0 <= i < |rows|
      ensures marked[i].verificationToken != Some(token)
    {
      if rows[i].id != rows[k].id {
        if i < k {
          assert rows[i].verificationToken != Some(token);
        } else {
          assert k < i;
        }
      }
    }
  }

  /** What a successful login answers: no password hash. */
  datatype PublicUser = PublicUser(id: nat, name: string, email: string, role: string)

  /** The claims the session token is signed over. */
  datatype Claims = Claims(id: nat, role: string)

  datatype LoginResult =
    | InvalidCredentials      // 400 "Invalid email or password"
    | NotVerified             // 400 "Please verify your email first."
    | LoggedIn(claims: Claims, user: PublicUser)

  /** `login`: unknown e-mail, then unverified, then the password check
      (`checkPassword` stands for `bcrypt.compare`). */
  function Login(t: UserTable, email: Option<string>, password: string, checkPassword: (string, string) -> bool): (r: LoginResult)
    ensures r == NotVerified <==>
              email.Some? && FindByEmail(t.rows, email.value).Some? && !FindByEmail(t.rows, email.value).value.isVerified
    ensures r.LoggedIn? <==>
              && email.Some? && FindByEmail(t.rows, email.value).Some?
              && FindByEmail(t.rows, email.value).value.isVerified
              && checkPassword(password, FindByEmail(t.rows, email.value).value.passwordHash)
    ensures r.LoggedIn? ==>
              var u := FindByEmail(t.rows, email.value).value;
              r.claims == Claims(u.id, u.role) && r.user == PublicUser(u.id, u.name, u.email, u.role)
  {
    if email.None? then InvalidCredentials
    else match FindByEmail(t.rows, email.value)
      case None => InvalidCredentials
      case Some(u) =>
        if !u.isVerified then NotVerified
        else if !checkPassword(password, u.passwordHash) then InvalidCredentials
        else LoggedIn(Claims(u.id, u.role), PublicUser(u.id, u.name, u.email, u.role))
  }

  /** An unverified account is refused before its password is looked at: the
      answer does not depend on the password or the comparison function. */
  lemma UnverifiedRefusedBeforePassword(t: UserTable, email: Option<string>, p1: string, p2: string,
                                        c1: (string, string) -> bool, c2: (string, string) -> bool)
    requires Login(t, email, p1, c1) == NotVerified
    ensures Login(t, email, p2, c2) == NotVerified
  {
  }

  /** Registration, verification with the mailed token, and login with the
      same password succeed in turn, given a token no earlier user holds and
      a checker that accepts a password against its own hash. */
  lemma RegisterVerifyLogin(t: UserTable, name: string, email: string, password: string,
                            hash: string -> string, checkPassword: (string, string) -> bool,
                            token: string, defaultRole: string)
    requires t.Valid()
    requires name != "" && email != "" && password != ""
    requires FindByEmail(t.rows, email).None? && FindByToken(t.rows, token).None?
    requires checkPassword(password, hash(password))
    ensures var (res, t1) := Register(t, Some(name), Some(email), Some(password), hash, token, defaultRole, true);
            && res == Registered
            && VerifyEmail(t1, token).0 == Verified
            && Login(VerifyEmail(t1, token).1, Some(email), password, checkPassword)
               == LoggedIn(Claims(t.nextId, defaultRole), PublicUser(t.nextId, name, email, defaultRole))
  {
    var u := NewUser(t.nextId, name, email, hash(password), token, defaultRole);
    forall v | v in t.rows
      ensures v.id != u.id
    {
      var i :| 0 <= i < |t.rows| && t.rows[i] == v;
      assert UserIds(t.rows)[i] == v.id;
    }
    var w := u.(isVerified := true, verificationToken := None);
    RegisterFresh(t, name, email, password, hash, token, defaultRole);
    VerifyNewest(t.rows, u, t.nextId + 1, token);
    LoginNewest(t.rows, w, t.nextId + 1, email, password, checkPassword);
  }

  /** A complete registration with a free address appends the new account. */
  lemma RegisterFresh(t: UserTable, name: string, email: string, password: string,
                      hash: string -> string, token: string, defaultRole: string)
    requires name != "" && email != "" && password != ""
    requires FindByEmail(t.rows, email).None?
    ensures Register(t, Some(name), Some(email), Some(password), hash, token, defaultRole, true)
            == (Registered, UserTable(t.rows + [NewUser(t.nextId, name, email, hash(password), token, defaultRole)], t.nextId + 1))
  {
  }

  /** Logging in to the newest account, verified and with an address no
      earlier account has, succeeds with its password. */
  lemma LoginNewest(rows: seq<User>, w: User, nextId: nat, email: string, password: string,
                    checkPassword: (string, string) -> bool)
    requires FindByEmail(rows, email).None? && w.email == email && w.isVerified
    requires checkPassword(password, w.passwordHash)
    ensures Login(UserTable(rows + [w], nextId), Some(email), password, checkPassword)
            == LoggedIn(Claims(w.id, w.role), PublicUser(w.id, w.name, w.email, w.role))
  {
    FindByEmailAppend(rows, w, email);
  }

  /** Verifying the token of the newest account, whose id and token no
      earlier account has, verifies just that account. */
  lemma VerifyNewest(rows: seq<User>, u: User, nextId: nat, token: string)
    requires forall v :: v in rows ==> v.id != u.id && v.verificationToken != Some(token)
    requires u.verificationToken == Some(token) && !u.isVerified
    ensures VerifyEmail(UserTable(rows + [u], nextId), token)
            == (Verified, UserTable(rows + [u.(isVerified := true, verificationToken := None)], nextId))
  {
    FindByTokenAppend(rows, u, token);
    var marked := MarkVerified(rows + [u], u.id);
    forall i | 0 <= i < |rows|
      ensures marked[i] == rows[i]
    {
      assert rows[i] in rows;
      assert (rows + [u])[i] == rows[i];
    }
    assert marked == rows + [u.(isVerified := true, verificationToken := None)];
  }

  lemma {:induction false} FindByTokenAppend(rows: seq<User>, u: User, token: string)
    requires forall v :: v in rows ==> v.verificationToken != Some(token)
    requires u.verificationToken == Some(token)
    ensures FindByToken(rows + [u], token) == Some(u)
  {
    if rows != [] {
      assert rows[0] in rows;
      assert (rows + [u])[1..] == rows[1..] + [u];
      assert forall v :: v in rows[1..] ==> v in rows;
      FindByTokenAppend(rows[1..], u, token);
    }
  }

  lemma {:induction false} FindByEmailAppend(rows: seq<User>, u: User, email: string)
    requires forall v :: v in rows ==> v.email != email
    requires u.email == email
    ensures FindByEmail(rows + [u], email) == Some(u)
  {
    if rows != [] {
      assert rows[0] in rows;
      assert (rows + [u])[1..] == rows[1..] + [u];
      assert forall v :: v in rows[1..] ==> v in rows;
      FindByEmailAppend(rows[1..], u, email);
    }
  }

  /** The handlers, as statements against the database object. */
  method RegisterUser(db: Db, name: Option<string>, email: Option<string>, password: Option<string>,
                      hash: string -> string, token: string, defaultRole: string, mailSent: bool)
    returns (result: RegisterResult)
    requires db.Valid()
    modifies db`users
    ensures (result, db.users) == Register(old(db.users), name, email, password, hash, token, defaultRole, mailSent)
    ensures db.Valid()
  {
    ghost var after := Register(db.users, name, email, password, hash, token, defaultRole, mailSent).1;
    RegisterKeepsIds(db.users, name, email, password, hash, token, defaultRole, mailSent);
    assert after.Valid();
    if Missing(name) || Missing(email) || Missing(password) {
      return FieldsRequired;
    }
    var existing := FindByEmail(db.users.rows, email.value);
    if existing.Some? {
      return EmailTaken;
    }
    var hashed := hash(password.value);
    var insertId := db.users.nextId;
    db.users := UserTable(db.users.rows + [NewUser(insertId, name.value, email.value, hashed, token, defaultRole)], insertId + 1);
    if !mailSent {
      db.users := db.users.(rows := RemoveUser(db.users.rows, insertId));
      return MailFailed;
    }
    result := Registered;
  }

  method VerifyEmailHandler(db: Db, token: string) returns (result: VerifyResult)
    requires db.Valid()
    modifies db`users
    ensures (result, db.users) == VerifyEmail(old(db.users), token)
    ensures db.Valid()
  {
    ghost var after := VerifyEmail(db.users, token).1;
    VerifyKeepsIds(db.users, token);
    assert after.Valid();
    var found := FindByToken(db.users.rows, token);
    if found.None? {
      return TokenErased;
    }
    var user := found.value;
    if user.isVerified {
      return AlreadyVerified;
    }
    db.users := db.users.(rows := MarkVerified(db.users.rows, user.id));
    result := Verified;
  }
}
