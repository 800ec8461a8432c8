/** The user handlers. Protected handlers receive the authenticated caller's id;
    the unique suffix of a stored file name and the outcome of each file operation
    are parameters. */
module UserController {
  import opened Http
  import opened Text
  import opened Uploads
  import opened UserModel
  import opened Store

  const RegisterFillMsg := "Fill In All Feileds."
  const EmailExistsMsg := "Email Already Exists."
  const ShortPasswordMsg := "Password Should Be At Least 6 Characters."
  const PasswordMismatchMsg := "Passwords Do Not Macth."
  const LoginFillMsg := "Fill In All Fieleds."
  const UnknownEmailMsg := "Invalid Credentials."
  const WrongPasswordMsg := "Invalid credentials."
  const UserNotFoundMsg := "User not found."
  const ChooseImageMsg := "PLease Choose An Image."
  const BigAvatarMsg := "Profile Picture Too Big. Should Be Less Than 500kb."
  const EditFillMsg := "Fill In All Fields."
  const EditNoUserMsg := "User Not Found."
  const EmailTakenMsg := "Email Already Exist."
  const BadCurrentPasswordMsg := "Invalid current password."
  const NewPasswordMismatchMsg := "New Password Do Not Match."

  /** The claims a signed token carries. Signing and the one-day expiry are not modelled. */
  datatype Token = Token(id: UserId, name: string)

  /** The body of a successful login. */
  datatype LoginReply = LoginReply(token: Token, id: UserId, name: string)

  /** The reply of a successful registration. */
  function RegisteredMsg(email: string): string {
    "New User " + email + " registered."
  }

  // ================ POST api/users/register

  /** The guard chain of registerUser: the first failing check decides the error. */
  function RegisterCheck(users: map<UserId, User>, n: nat,
                         name: Field, email: Field, password: Field, password2: Field): (r: Option<HttpErr>)
    // accepted exactly when every check passes; `password2` is only compared, never required
    ensures r.None? <==>
              && Filled(name) && Filled(email) && Filled(password)
              && FindByEmail(users, n, ToLower(email.value)).None?
              && |Trim(password.value)| >= 6
              && password2 == password
    // each message is reported exactly when every earlier check passed and its own failed
    ensures r == Some(Coded(422, RegisterFillMsg)) <==> !(Filled(name) && Filled(email) && Filled(password))
    ensures r == Some(Coded(422, EmailExistsMsg)) <==>
              && Filled(name) && Filled(email) && Filled(password)
              && FindByEmail(users, n, ToLower(email.value)).Some?
    ensures r == Some(Coded(422, ShortPasswordMsg)) <==>
              && Filled(name) && Filled(email) && Filled(password)
              && FindByEmail(users, n, ToLower(email.value)).None?
              && |Trim(password.value)| < 6
    ensures r == Some(Coded(422, PasswordMismatchMsg)) <==>
              && Filled(name) && Filled(email) && Filled(password)
              && FindByEmail(users, n, ToLower(email.value)).None?
              && |Trim(password.value)| >= 6
              && password2 != password
    ensures r.Some? ==> r.value.Coded? && r.value.code == 422
  {
    if !Filled(name) || !Filled(email) || !Filled(password) then Some(Coded(422, RegisterFillMsg))
    else if FindByEmail(users, n, ToLower(email.value)).Some? then Some(Coded(422, EmailExistsMsg))
    else if |Trim(password.value)| < 6 then Some(Coded(422, ShortPasswordMsg))
    else if password != password2 then Some(Coded(422, PasswordMismatchMsg))
    else None
  }

  /** A password that is all white space is refused however long it is. */
  lemma BlankPasswordRefused(users: map<UserId, User>, n: nat, name: Field, email: Field, password: string)
    requires Filled(name) && Filled(email) && password != "" && AllSpace(password)
    requires FindByEmail(users, n, ToLower(email.value)).None?
    ensures RegisterCheck(users, n, name, email, Some(password), Some(password)) == Some(Coded(422, ShortPasswordMsg))
  {
    TrimEmptyIffBlank(password);
  }

  method RegisterUser(db: Db, name: Field, email: Field, password: Field, password2: Field)
    returns (r: Outcome<string>)
    requires db.Valid()
    modifies db
    ensures db.Valid()
    ensures db.posts == old(db.posts) && db.files == old(db.files) && db.nextPostId == old(db.nextPostId)
    ensures r.Err? <==> RegisterCheck(old(db.users), old(db.nextUserId), name, email, password, password2).Some?
    ensures r.Err? ==>
              r.error == RegisterCheck(old(db.users), old(db.nextUserId), name, email, password, password2).value
              && unchanged(db)
    // exactly one user is added, with the email lower-cased and the password hashed
    ensures r.Ok? ==>
              var id := old(db.nextUserId);
              && id !in old(db.users)
              && r == Ok(201, RegisteredMsg(ToLower(email.value)))
              && db.users == old(db.users)[id := User(name.value, ToLower(email.value), Hash(password.value), "", 0)]
    // and can log in with the credentials it registered
    ensures r.Ok? ==>
              LoginUser(db, email, password) ==
              Ok(200, LoginReply(Token(old(db.nextUserId), name.value), old(db.nextUserId), name.value))
    ensures old(db.Consistent()) ==> db.Consistent()
  {
    var check := RegisterCheck(db.users, db.nextUserId, name, email, password, password2);
    if check.Some? {
      return Err(check.value);
    }
    var newEmail := ToLower(email.value);
    var id := db.nextUserId;
    var newUser := User(name.value, newEmail, Hash(password.value), "", 0);
    ghost var before := db.users;
    db.users := db.users[id := newUser];
    db.nextUserId := id + 1;
    assert EmailsUnique(db.users) by {
      forall a | a in before ensures before[a].email != newEmail {
        assert a < id;
      }
    }
    StoredCredentialsLogIn(db, id, email, password);
    if old(db.Consistent()) {
      assert CreatedBy(db.posts, id) == {};
    }
    r := Ok(201, RegisteredMsg(newEmail));
  }

  /** Under unique emails, a user whose stored email is the lower-cased input and
      whose hash matches the password is the one a login finds. */
  lemma StoredCredentialsLogIn(db: Db, id: UserId, email: Field, password: Field)
    requires db.Valid() && Filled(email) && Filled(password)
    requires id in db.users && db.users[id].email == ToLower(email.value)
    requires db.users[id].password == Hash(password.value)
    ensures LoginUser(db, email, password) ==
              Ok(200, LoginReply(Token(id, db.users[id].name), id, db.users[id].name))
  {
    assert FindByEmail(db.users, db.nextUserId, ToLower(email.value)) == Some(id);
  }

  // ================ POST api/users/login

  function LoginUser(db: Db, email: Field, password: Field): (r: Outcome<LoginReply>)
    reads db
    requires db.Valid()
    // succeeds exactly for a stored user whose email is the lower-cased input and whose hash matches
    ensures r.Ok? <==>
              && Filled(email) && Filled(password)
              && exists id :: id in db.users && db.users[id].email == ToLower(email.value)
                              && Verify(password.value, db.users[id].password)
    ensures r.Ok? ==>
              && r.status == 200
              && r.body.id in db.users
              && db.users[r.body.id].email == ToLower(email.value)
              && r.body.name == db.users[r.body.id].name
              && r.body.token == Token(r.body.id, r.body.name)
    ensures r.Err? ==> r.error.Coded? && r.error.code == 422
    // the three refusals, each exactly in its own case
    ensures r == Err(Coded(422, LoginFillMsg)) <==> !(Filled(email) && Filled(password))
    ensures r == Err(Coded(422, UnknownEmailMsg)) <==>
              && Filled(email) && Filled(password)
              && forall id :: id in db.users ==> db.users[id].email != ToLower(email.value)
    ensures r == Err(Coded(422, WrongPasswordMsg)) <==>
              && Filled(email) && Filled(password)
              && exists id :: id in db.users && db.users[id].email == ToLower(email.value)
                              && !Verify(password.value, db.users[id].password)
  {
    if !Filled(email) || !Filled(password) then Err(Coded(422, LoginFillMsg))
    else
      match FindByEmail(db.users, db.nextUserId, ToLower(email.value))
      case None => Err(Coded(422, UnknownEmailMsg))
      case Some(id) =>
        var user := db.users[id];
        if !Verify(password.value, user.password) then Err(Coded(422, WrongPasswordMsg))
        else Ok(200, LoginReply(Token(id, user.name), id, user.name))
  }

  /** The unknown-email and wrong-password refusals differ only in the case of one
      letter, so a client reading them without regard to case cannot tell them apart. */
  lemma LoginMessagesDifferInCase()
    ensures UnknownEmailMsg != WrongPasswordMsg
    ensures SameIgnoringCase(UnknownEmailMsg, WrongPasswordMsg)
  {
    var head, tail := "Invalid ", "redentials.";
    assert UnknownEmailMsg == head + ['C'] + tail;
    assert WrongPasswordMsg == head + ['c'] + tail;
    OneLetterCase(head, tail, 'C', 'c');
  }

  /** A stored email with an upper-case letter, which only editUser can store, can
      never be matched by a login, since login looks up the lower-cased input. */
  lemma MixedCaseEmailCannotLogIn(db: Db, id: UserId, email: Field, password: Field)
    requires db.Valid() && id in db.users
    requires ToLower(db.users[id].email) != db.users[id].email
    ensures LoginUser(db, email, password).Ok? ==> LoginUser(db, email, password).body.id != id
  {
    if Filled(email) {
      ToLowerIdempotent(email.value);
    }
  }

  // ================ GET api/users/:id

  function GetUser(db: Db, id: UserId): (r: Outcome<PublicUser>)
    reads db
    ensures r.Ok? <==> id in db.users
    ensures r.Ok? ==> r.status == 200 && r.body == Public(id, db.users[id])
    ensures r.Err? ==> r.error == Coded(404, UserNotFoundMsg)
  {
    if id in db.users then Ok(200, Public(id, db.users[id]))
    else Err(Coded(404, UserNotFoundMsg))
  }

  // ================ GET api/users

  /** Every stored user exactly once, without the password. */
  function GetAuthors(db: Db): (r: Outcome<seq<PublicUser>>)
    reads db
    requires db.Valid()
    ensures r.Ok? && r.status == 200
    ensures forall a :: multiset(r.body)[a] == if a.id in db.users && a == Public(a.id, db.users[a.id]) then 1 else 0
  {
    Ok(200, Authors(db.users, db.nextUserId))
  }

  // ================ POST api/users/change-avatar (protected)

  method ChangeAvatar(db: Db, caller: UserId, files: Files, uuid: string, unlinkOk: bool, mvOk: bool)
    returns (r: Outcome<UserDoc>)
    requires db.Valid()
    modifies db
    ensures db.Valid()
    ensures db.posts == old(db.posts) && db.nextUserId == old(db.nextUserId) && db.nextPostId == old(db.nextPostId)
    ensures files.NoFiles? ==> r == Err(Crashed) && unchanged(db)
    ensures files.Files? && files.field.None? ==> r == Err(Coded(422, ChooseImageMsg)) && unchanged(db)
    ensures files.Files? && files.field.Some? && caller !in old(db.users) ==> r == Err(Crashed) && unchanged(db)
    ensures r.Ok? <==>
              files.Files? && files.field.Some? && caller in old(db.users)
              && !TooBig(files.field.value, AvatarLimit) && mvOk
    // the old avatar is unlinked before the size check, so a refused upload still loses it
    ensures files.Files? && files.field.Some? && caller in old(db.users) ==>
              var old_avatar := old(db.users[caller].avatar);
              var name := StoredName(files.field.value.name, uuid);
              db.files == (old(db.files) - (if unlinkOk && old_avatar != "" then {old_avatar} else {}))
                          + (if r.Ok? then {name} else {})
    ensures files.Files? && files.field.Some? && caller in old(db.users) && TooBig(files.field.value, AvatarLimit) ==>
              r == Err(Uncoded(BigAvatarMsg))
    // a failed move is forwarded to `next` as a thrown error
    ensures files.Files? && files.field.Some? && caller in old(db.users)
            && !TooBig(files.field.value, AvatarLimit) && !mvOk ==>
              r == Err(Crashed)
    ensures r.Err? ==> db.users == old(db.users)
    // success: only the caller's avatar changes; the whole record comes back, hash included
    ensures r.Ok? ==>
              var u := old(db.users[caller]).(avatar := StoredName(files.field.value.name, uuid));
              && db.users == old(db.users)[caller := u]
              && r == Ok(200, UserDoc(caller, u))
    ensures old(db.Consistent()) ==> db.Consistent()
  {
    if files.NoFiles? {
      // `req.files.avatar` on an undefined `req.files`
      return Err(Crashed);
    }
    if files.field.None? {
      return Err(Coded(422, ChooseImageMsg));
    }
    if caller !in db.users {
      // `user.avatar` on a null user
      return Err(Crashed);
    }
    var user := db.users[caller];
    if user.avatar != "" {
      // the unlink is not awaited: its failure does not stop the handler
      var _ := db.Unlink(user.avatar, unlinkOk);
    }
    var avatar := files.field.value;
    if TooBig(avatar, AvatarLimit) {
      // the 422 goes to `next` as a second argument, not to the error
      return Err(Uncoded(BigAvatarMsg));
    }
    var newFileName := StoredName(avatar.name, uuid);
    var moved := db.Move(newFileName, mvOk);
    if !moved {
      return Err(Crashed);
    }
    var updatedAvatar := user.(avatar := newFileName);
    db.users := db.users[caller := updatedAvatar];
    r := Ok(200, UserDoc(caller, updatedAvatar));
  }

  // ================ PATCH api/users/edit-user (protected)

  /** The guard chain of editUser: the first failing check decides the error. The
      email is looked up exactly as given, without lower-casing. */
  function EditUserCheck(users: map<UserId, User>, n: nat, caller: UserId,
                         name: Field, email: Field, currentPassword: Field,
                         newPassword: Field, confirmNewPassword: Field): (r: Option<HttpErr>)
    // accepted exactly when every check passes
    ensures r.None? <==>
              && Filled(name) && Filled(email) && Filled(currentPassword) && Filled(newPassword)
              && caller in users
              && FindByEmail(users, n, email.value) in {None, Some(caller)}
              && Verify(currentPassword.value, users[caller].password)
              && confirmNewPassword == newPassword
    // each message is reported exactly when every earlier check passed and its own failed
    ensures r == Some(Coded(422, EditFillMsg)) <==>
              !(Filled(name) && Filled(email) && Filled(currentPassword) && Filled(newPassword))
    ensures r == Some(Coded(403, EditNoUserMsg)) <==>
              Filled(name) && Filled(email) && Filled(currentPassword) && Filled(newPassword) && caller !in users
    ensures r == Some(Coded(422, EmailTakenMsg)) <==>
              && Filled(name) && Filled(email) && Filled(currentPassword) && Filled(newPassword)
              && caller in users
              && FindByEmail(users, n, email.value) !in {None, Some(caller)}
    ensures r == Some(Coded(422, BadCurrentPasswordMsg)) <==>
              && Filled(name) && Filled(email) && Filled(currentPassword) && Filled(newPassword)
              && caller in users
              && FindByEmail(users, n, email.value) in {None, Some(caller)}
              && !Verify(currentPassword.value, users[caller].password)
    ensures r == Some(Coded(422, NewPasswordMismatchMsg)) <==>
              && Filled(name) && Filled(email) && Filled(currentPassword) && Filled(newPassword)
              && caller in users
              && FindByEmail(users, n, email.value) in {None, Some(caller)}
              && Verify(currentPassword.value, users[caller].password)
              && confirmNewPassword != newPassword
  {
    if !Filled(name) || !Filled(email) || !Filled(currentPassword) || !Filled(newPassword) then
      Some(Coded(422, EditFillMsg))
    else if caller !in users then Some(Coded(403, EditNoUserMsg))
    else
      var emailExist := FindByEmail(users, n, email.value);
      if emailExist.Some? && emailExist.value != caller then Some(Coded(422, EmailTakenMsg))
      else if !Verify(currentPassword.value, users[caller].password) then Some(Coded(422, BadCurrentPasswordMsg))
      else if newPassword != confirmNewPassword then Some(Coded(422, NewPasswordMismatchMsg))
      else None
  }

  method EditUser(db: Db, caller: UserId, name: Field, email: Field, currentPassword: Field,
                  newPassword: Field, confirmNewPassword: Field)
    returns (r: Outcome<UserDoc>)
    requires db.Valid()
    modifies db
    ensures db.Valid()
    ensures db.posts == old(db.posts) && db.files == old(db.files)
    ensures db.nextUserId == old(db.nextUserId) && db.nextPostId == old(db.nextPostId)
    ensures r.Err? <==>
              EditUserCheck(old(db.users), old(db.nextUserId), caller, name, email,
                            currentPassword, newPassword, confirmNewPassword).Some?
    ensures r.Err? ==>
              && r.error == EditUserCheck(old(db.users), old(db.nextUserId), caller, name, email,
                                          currentPassword, newPassword, confirmNewPassword).value
              && db.users == old(db.users)
    // success replaces exactly name, email (as given) and password hash of the caller
    ensures r.Ok? ==>
              var u := old(db.users[caller]).(name := name.value, email := email.value,
                                               password := Hash(newPassword.value));
              && db.users == old(db.users)[caller := u]
              && r == Ok(200, UserDoc(caller, u))
    ensures old(db.Consistent()) ==> db.Consistent()
  {
    var check := EditUserCheck(db.users, db.nextUserId, caller, name, email,
                               currentPassword, newPassword, confirmNewPassword);
    if check.Some? {
      return Err(check.value);
    }
    var user := db.users[caller];
    var newInfo := user.(name := name.value, email := email.value, password := Hash(newPassword.value));
    db.users := db.users[caller := newInfo];
    r := Ok(200, UserDoc(caller, newInfo));
  }
}
