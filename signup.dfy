/**
 * `POST /api/auth/signup`: presence and length checks, then an existence query
 * and an insert. `hash` stands for bcrypt's `hashSync(password, 10)`.
 */
module SignupRoute {
  import opened Common
  import opened Http
  import opened Db

  datatype Credentials = Credentials(username: Option<string>, password: Option<string>)

  const UsernameMin: nat := 3
  const UsernameMax: nat := 50
  const PasswordMin: nat := 6

  /**
   * The checks made before any store access, in order: presence, username
   * length, password length. `None` means the input passes them all.
   */
  function Validate(c: Credentials): (err: Option<Msg>)
    ensures err.None? <==>
      && Truthy(c.username) && Truthy(c.password)
      && UsernameMin <= |c.username.value| <= UsernameMax
      && |c.password.value| >= PasswordMin
    ensures err.Some? ==> err.value in {SignupMissingFields, UsernameLength, PasswordTooShort}
    ensures err == Some(SignupMissingFields) <==> !Truthy(c.username) || !Truthy(c.password)
    ensures err == Some(UsernameLength) <==>
      Truthy(c.username) && Truthy(c.password) && !(UsernameMin <= |c.username.value| <= UsernameMax)
    // The password is judged only once the username is acceptable.
    ensures err == Some(PasswordTooShort) <==>
      && Truthy(c.username) && Truthy(c.password) && UsernameMin <= |c.username.value| <= UsernameMax
      && |c.password.value| < PasswordMin
  {
    if !Truthy(c.username) || !Truthy(c.password) then Some(SignupMissingFields)
    else if |c.username.value| < UsernameMin || |c.username.value| > UsernameMax then Some(UsernameLength)
    else if |c.password.value| < PasswordMin then Some(PasswordTooShort)
    else None
  }

  /** The length bounds are inclusive at both ends. */
  lemma UsernameBoundsInclusive(name: string, password: string)
    requires |password| >= PasswordMin
    requires |name| == UsernameMin || |name| == UsernameMax
    ensures Validate(Credentials(Some(name), Some(password))) == None
  {
  }

  method Post(db: Store, body: Parsed<Credentials>, hash: string -> string, now: int, failing: set<Call>)
    returns (resp: Response)
    requires db.Valid()
    modifies db`users, db`nextUserId
    ensures db.Valid()
    ensures resp.cookie == Untouched
    ensures resp.status in {201, 400, 409, 500}
    ensures body.Malformed? ==> resp == ErrorResponse(500, ServerErrorSpaced)
    ensures body.Parsed? && Validate(body.value).Some? ==> resp == ErrorResponse(400, Validate(body.value).value)
    ensures resp.status != 201 ==> db.users == old(db.users)
    // A username the store reports as taken gives 409.
    ensures body.Parsed? && Validate(body.value).None? && UserExists !in failing
            && body.value.username.value in old(db.users) ==>
      resp == ErrorResponse(409, UsernameTaken)
    // A failed existence query reads as "free"; the insert then decides.
    ensures body.Parsed? && Validate(body.value).None?
            && (UserExists in failing || body.value.username.value !in old(db.users)) ==>
      var name := body.value.username.value;
      if InsertUser in failing || name in old(db.users) then
        resp == ErrorResponse(500, ServerErrorSpaced)
      else
        && resp == Response(201, MessageBody(SignupSucceeded), Untouched)
        && db.users == old(db.users)[name := User(old(db.nextUserId), name, hash(body.value.password.value), 0, now)]
    ensures resp.status == 201 ==> |db.users| == |old(db.users)| + 1
  {
    if body.Malformed? {
      return ErrorResponse(500, ServerErrorSpaced);
    }
    var err := Validate(body.value);
    if err.Some? {
      return ErrorResponse(400, err.value);
    }
    var username, password := body.value.username.value, body.value.password.value;
    var taken := db.ExistsByUsername(username, UserExists in failing);
    if taken {
      return ErrorResponse(409, UsernameTaken);
    }
    var created := db.CreateUser(username, hash(password), now, InsertUser in failing);
    if created.Throws? {
      return ErrorResponse(500, ServerErrorSpaced);
    }
    if created.value.None? {
      return ErrorResponse(500, UserNotCreated);
    }
    resp := Response(201, MessageBody(SignupSucceeded), Untouched);
  }
}
