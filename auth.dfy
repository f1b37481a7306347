/**
 * The user store of the sign-in pages: users kept in local storage under `users`, the session
 * under `currentUser`, the `rememberMe` flag and the `userPreferences` object. Passwords are
 * compared as plain strings, as the application does.
 */
module Auth {
  import opened Wrappers
  import opened Seqs
  import opened Text

  /** A stored user; an empty string is an absent or falsy field. */
  datatype User = User(id: string, name: string, email: string, password: string,
                       imageUrl: string, createdAt: string)

  /** What `JSON.parse(localStorage.getItem(key))` yields: nothing stored, text that does not
      parse to the expected shape, or a value. */
  datatype Stored<T> = Absent | Unparsable | Parsed(value: T)

  /** The avatar used when no photo was uploaded. */
  const PlaceholderImage: string := "https://via.placeholder.com/40"

  /** The shortest password accepted by registration and reset. */
  const MinPasswordLength: nat := 6

  predicate IsValidUser(u: User)
  {
    u.id != "" && u.name != "" && u.email != "" && u.password != ""
  }

  /** `validateUserData`: the entry exists and id, name, email and password are all truthy. The
      loading filter tests the same four fields. */
  predicate ValidateUserData(entry: Option<User>)
    ensures ValidateUserData(entry) <==>
              entry.Some? && entry.value.id != "" && entry.value.name != ""
              && entry.value.email != "" && entry.value.password != ""
  {
    entry.Some? && IsValidUser(entry.value)
  }

  /** The list as it is written to storage (every entry present). */
  function Wrap(us: seq<User>): (r: seq<Option<User>>)
    ensures |r| == |us| && forall i :: 0 <= i < |us| ==> r[i] == Some(us[i])
  {
    seq(|us|, i requires 0 <= i < |us| => Some(us[i]))
  }

  function Values(es: seq<Option<User>>): (r: seq<User>)
    requires forall i :: 0 <= i < |es| ==> es[i].Some?
    ensures Wrap(r) == es
  {
    seq(|es|, i requires 0 <= i < |es| => es[i].value)
  }

  /** `loadUsers`: the stored entries that pass validation, in their stored order; nothing stored
      or unparsable text gives the empty list. */
  function LoadUsers(stored: Stored<seq<Option<User>>>): (r: seq<User>)
    ensures !stored.Parsed? ==> r == []
    ensures stored.Parsed? ==> Wrap(r) == Filter(stored.value, ValidateUserData)
    ensures forall u :: u in r ==> IsValidUser(u)
  {
    if stored.Parsed? then
      var kept := Filter(stored.value, ValidateUserData);
      assert forall i :: 0 <= i < |kept| ==> kept[i] in kept;
      Values(kept)
    else []
  }

  /** A user is loaded exactly when it is stored and valid, and the loaded users keep their
      stored order. */
  lemma {:induction false} LoadUsersFacts(entries: seq<Option<User>>)
    ensures forall u :: u in LoadUsers(Parsed(entries)) <==> Some(u) in entries && IsValidUser(u)
    ensures IsSubsequence(Wrap(LoadUsers(Parsed(entries))), entries)
  {
    var r := LoadUsers(Parsed(entries));
    var kept := Filter(entries, ValidateUserData);
    FilterIsSubsequence(entries, ValidateUserData);
    forall u
      ensures u in r <==> Some(u) in entries && IsValidUser(u)
    {
      if u in r {
        var i :| 0 <= i < |r| && r[i] == u;
        assert kept[i] == Some(u);
      }
      if Some(u) in entries && IsValidUser(u) {
        assert Some(u) in kept;
        var i :| 0 <= i < |kept| && kept[i] == Some(u);
        assert Wrap(r)[i] == Some(r[i]);
      }
    }
  }

  /** Writing a list of valid users and loading it back gives the same list. */
  lemma {:induction false} SaveLoadRoundTrip(us: seq<User>)
    requires forall u :: u in us ==> IsValidUser(u)
    ensures LoadUsers(Parsed(Wrap(us))) == us
  {
    var w := Wrap(us);
    forall e | e in w
      ensures ValidateUserData(e)
    {
      var i :| 0 <= i < |w| && w[i] == e;
      assert us[i] in us;
    }
    FilterAll(w, ValidateUserData);
    var r := LoadUsers(Parsed(w));
    assert Wrap(r) == w;
    assert |r| == |us|;
    forall i | 0 <= i < |r|
      ensures r[i] == us[i]
    {
      assert Wrap(r)[i] == w[i];
    }
  }

  /** `loadCurrentUser`: the stored session when it has an id and an email. */
  function LoadCurrentUser(stored: Stored<Option<User>>): (r: Option<User>)
    ensures r.Some? <==> stored.Parsed? && stored.value.Some?
                         && stored.value.value.id != "" && stored.value.value.email != ""
    ensures r.Some? ==> r == stored.value
  {
    if stored.Parsed? && stored.value.Some? && stored.value.value.id != "" && stored.value.value.email != ""
    then stored.value
    else None
  }

  /** `u => u.email && u.email.trim().toLowerCase() === email`. */
  function EmailMatches(email: string): User -> bool
  {
    (u: User) => u.email != "" && NormalizeEmail(u.email) == email
  }

  function UserId(u: User): string
  {
    u.id
  }

  /** `users.find(...)` by normalised e-mail: the first user whose normalised e-mail equals
      `email`, or None when there is none. */
  function FindByEmail(users: seq<User>, email: string): (r: Option<User>)
    ensures r.Some? ==> r.value in users && r.value.email != "" && NormalizeEmail(r.value.email) == email
    ensures r.None? <==> forall u :: u in users ==> u.email == "" || NormalizeEmail(u.email) != email
    ensures r.Some? ==> exists i :: 0 <= i < |users| && users[i] == r.value
                                    && forall j :: 0 <= j < i ==> users[j].email == "" || NormalizeEmail(users[j].email) != email
  {
    var i := FirstIndex(users, EmailMatches(email));
    if i.Some? then
      assert forall j :: 0 <= j < i.value ==> !EmailMatches(email)(users[j]);
      Some(users[i.value])
    else
      assert forall u :: u in users ==> !EmailMatches(email)(u);
      None
  }

  /** A user is found by any spelling of its e-mail that normalises to the same address. */
  lemma FoundByAnySpelling(users: seq<User>, u: User, typed: string)
    requires u in users && u.email != "" && NormalizeEmail(typed) == NormalizeEmail(u.email)
    ensures FindByEmail(users, NormalizeEmail(typed)).Some?
  {
    assert EmailMatches(NormalizeEmail(typed))(u);
  }

  /** Logging in with the stored address typed in other capitals still finds the user. */
  lemma FoundIgnoringCase(users: seq<User>, u: User, typed: string)
    requires u in users && u.email != "" && SameUpToCase(typed, u.email)
    ensures FindByEmail(users, NormalizeEmail(typed)).Some?
  {
    EmailCaseInsensitive(typed, u.email);
    FoundByAnySpelling(users, u, typed);
  }

  /** No two users share an e-mail address after normalisation. */
  ghost predicate UniqueEmails(users: seq<User>)
  {
    forall i, j :: 0 <= i < j < |users| ==> NormalizeEmail(users[i].email) != NormalizeEmail(users[j].email)
  }

  /** No two users share an id. */
  ghost predicate UniqueIds(users: seq<User>)
  {
    forall i, j :: 0 <= i < j < |users| ==> users[i].id != users[j].id
  }

  /** The outcome of `login`. */
  datatype LoginResult = EmptyField | UserNotFound | InvalidPassword | LoggedIn

  /** The outcome of `register`, one constructor per message it can show. */
  datatype RegisterResult =
    | BlankField | PasswordMismatch | PasswordTooShort | TermsNotAgreed
    | DuplicateEmail | InvalidUserData | SaveFailed | Registered

  /** The outcome of `resetPassword`. */
  datatype ResetResult = ResetBlankField | ResetTooShort | ResetMismatch | ResetUserNotFound | PasswordReset

  /**
   * The form checks of `register`, in the order the page applies them: a blank field, then
   * passwords that differ, then a password shorter than six characters, then unchecked terms.
   * None means the form passes.
   */
  function RegisterFormCheck(fullName: string, email: string, password: string, confirm: string,
                             agreeTerms: bool): (r: Option<RegisterResult>)
    ensures r == Some(BlankField) <==> fullName == "" || email == "" || password == "" || confirm == ""
    ensures r == Some(PasswordMismatch) <==>
              fullName != "" && email != "" && password != "" && confirm != "" && password != confirm
    ensures r == Some(PasswordTooShort) <==>
              fullName != "" && email != "" && password != "" && password == confirm
              && |password| < MinPasswordLength
    ensures r == Some(TermsNotAgreed) <==>
              fullName != "" && email != "" && password != "" && password == confirm
              && |password| >= MinPasswordLength && !agreeTerms
    ensures r.None? <==>
              fullName != "" && email != "" && password == confirm
              && |password| >= MinPasswordLength && agreeTerms
  {
    if fullName == "" || email == "" || password == "" || confirm == "" then Some(BlankField)
    else if password != confirm then Some(PasswordMismatch)
    else if |password| < MinPasswordLength then Some(PasswordTooShort)
    else if !agreeTerms then Some(TermsNotAgreed)
    else None
  }

  /** The form checks of `resetPassword`: a blank field, then a short password, then passwords
      that differ (length comes before equality here, unlike registration). */
  function ResetFormCheck(email: string, password: string, confirm: string): (r: Option<ResetResult>)
    ensures r == Some(ResetBlankField) <==> email == "" || password == "" || confirm == ""
    ensures r == Some(ResetTooShort) <==>
              email != "" && password != "" && confirm != "" && |password| < MinPasswordLength
    ensures r == Some(ResetMismatch) <==>
              email != "" && confirm != "" && |password| >= MinPasswordLength && password != confirm
    ensures r.None? <==> email != "" && |password| >= MinPasswordLength && password == confirm
  {
    if email == "" || password == "" || confirm == "" then Some(ResetBlankField)
    else if |password| < MinPasswordLength then Some(ResetTooShort)
    else if password != confirm then Some(ResetMismatch)
    else None
  }

  /** A password that passes the reset form also passes the registration form's length and
      equality checks, and conversely; only the order of the two messages differs. */
  lemma FormChecksAgree(fullName: string, email: string, password: string, confirm: string)
    requires fullName != ""
    ensures RegisterFormCheck(fullName, email, password, confirm, true).None?
            <==> ResetFormCheck(email, password, confirm).None?
  {
  }

  /** The record `register` creates. */
  function NewUser(id: string, fullName: string, email: string, password: string,
                   photo: Option<string>, createdAt: string): (r: User)
    ensures r.id == id && r.name == fullName && r.email == email && r.password == password
    ensures r.imageUrl != ""
    ensures photo.Some? && photo.value != "" ==> r.imageUrl == photo.value
    ensures r.createdAt == createdAt
  {
    User(id, fullName, email, password,
         if photo.Some? then Or(photo.value, PlaceholderImage) else PlaceholderImage, createdAt)
  }

  /** Appending a user whose normalised e-mail is not yet taken keeps e-mails unique. */
  lemma {:induction false} RegisterKeepsEmailsUnique(users: seq<User>, nu: User, email: string)
    requires UniqueEmails(users)
    requires FindByEmail(users, email).None? && nu.email == email && email == NormalizeEmail(email)
    requires forall u :: u in users ==> u.email != ""
    ensures UniqueEmails(users + [nu])
  {
    var s := users + [nu];
    forall i, j | 0 <= i < j < |s|
      ensures NormalizeEmail(s[i].email) != NormalizeEmail(s[j].email)
    {
      if j == |users| {
        assert s[i] in users;
      }
    }
  }

  /** After a registration, the new address finds the new user. */
  lemma NewUserIsFound(users: seq<User>, nu: User, email: string)
    requires FindByEmail(users, email).None? && nu.email == email && email != "" && NormalizeEmail(email) == email
    ensures FindByEmail(users + [nu], email) == Some(nu)
  {
    var s := users + [nu];
    var p := EmailMatches(email);
    assert forall i :: 0 <= i < |users| ==> !p(s[i]) by {
      forall i | 0 <= i < |users|
        ensures !p(s[i])
      {
        assert s[i] == users[i] && users[i] in users;
      }
    }
    assert p(s[|users|]);
  }

  /** Once the list with the new user is written, loading it back and looking the address up
      finds the new user: the read-back check of `register` always succeeds. */
  lemma SavedUserReadsBack(users: seq<User>, nu: User)
    requires IsValidUser(nu) && NormalizeEmail(nu.email) == nu.email && FindByEmail(users, nu.email).None?
    requires forall u :: u in users ==> IsValidUser(u)
    ensures FindByEmail(LoadUsers(Parsed(Wrap(users + [nu]))), nu.email) == Some(nu)
  {
    SaveLoadRoundTrip(users + [nu]);
    NewUserIsFound(users, nu, nu.email);
  }

  /** The rollback of a failed save removes the appended user and, when no earlier user has its
      id, restores the list exactly. */
  lemma RollbackRestores(users: seq<User>, nu: User)
    requires forall u :: u in users ==> u.id != nu.id
    ensures Filter(users + [nu], KeyIsNot(UserId, nu.id)) == users
  {
    var p := KeyIsNot(UserId, nu.id);
    FilterAppend(users, nu, p);
    assert UserId(nu) == nu.id;
    assert !p(nu);
    forall x | x in users
      ensures p(x)
    {
    }
    FilterAll(users, p);
  }

  /** The rollback filters by id, so an earlier user that happens to share the new id is dropped
      as well. */
  lemma RollbackDropsSameId(users: seq<User>, nu: User, u: User)
    requires u in users && u.id == nu.id
    ensures u !in Filter(users + [nu], KeyIsNot(UserId, nu.id))
    ensures Filter(users + [nu], KeyIsNot(UserId, nu.id)) != users
  {
    var p := KeyIsNot(UserId, nu.id);
    assert !p(u);
  }

  /** The fields an `updateUserProfile` call supplies. */
  datatype UserPatch = UserPatch(id: Option<string>, name: Option<string>, email: Option<string>,
                                 password: Option<string>, imageUrl: Option<string>,
                                 createdAt: Option<string>)

  function Pick(patch: Option<string>, current: string): string
  {
    if patch.Some? then patch.value else current
  }

  /** `Object.assign(user, updates)`: each supplied field replaces the current one. */
  function ApplyPatch(u: User, patch: UserPatch): (r: User)
    ensures r.name == (if patch.name.Some? then patch.name.value else u.name)
    ensures r.email == (if patch.email.Some? then patch.email.value else u.email)
    ensures r.password == (if patch.password.Some? then patch.password.value else u.password)
    ensures r.imageUrl == (if patch.imageUrl.Some? then patch.imageUrl.value else u.imageUrl)
    ensures r.id == (if patch.id.Some? then patch.id.value else u.id)
    ensures r.createdAt == (if patch.createdAt.Some? then patch.createdAt.value else u.createdAt)
  {
    User(Pick(patch.id, u.id), Pick(patch.name, u.name), Pick(patch.email, u.email),
         Pick(patch.password, u.password), Pick(patch.imageUrl, u.imageUrl), Pick(patch.createdAt, u.createdAt))
  }

  /** Applying the same updates twice is the same as once, and no updates change nothing. */
  lemma PatchIdempotent(u: User, patch: UserPatch)
    ensures ApplyPatch(ApplyPatch(u, patch), patch) == ApplyPatch(u, patch)
    ensures ApplyPatch(u, UserPatch(None, None, None, None, None, None)) == u
  {
  }

  /** `{ ...current, ...updates }`: the updates override key by key and every other key is kept. */
  function MergePreferences(current: map<string, string>, updates: map<string, string>): (r: map<string, string>)
    ensures r.Keys == current.Keys + updates.Keys
    ensures forall k :: k in updates ==> r[k] == updates[k]
    ensures forall k :: k in current && k !in updates ==> r[k] == current[k]
  {
    current + updates
  }

  /** `getUserPreferences`: the stored object, or `{}` when nothing usable is stored. */
  function Preferences(stored: Stored<map<string, string>>): (r: map<string, string>)
    ensures stored.Parsed? ==> r == stored.value
    ensures !stored.Parsed? ==> r == map[]
  {
    if stored.Parsed? then stored.value else map[]
  }

  class AuthManager {
    var users: seq<User>
    var currentUser: Option<User>
    /** The `users` storage entry. */
    var storedUsers: Stored<seq<Option<User>>>
    /** The `currentUser` storage entry. */
    var storedCurrentUser: Stored<Option<User>>
    /** Whether the `rememberMe` storage entry is set. */
    var rememberMe: bool
    /** The `userPreferences` storage entry. */
    var storedPreferences: Stored<map<string, string>>

    /** The constructor: the valid stored users and the stored session. */
    constructor(usersEntry: Stored<seq<Option<User>>>, sessionEntry: Stored<Option<User>>,
                remembered: bool, preferencesEntry: Stored<map<string, string>>)
      ensures storedUsers == usersEntry && storedCurrentUser == sessionEntry
      ensures rememberMe == remembered && storedPreferences == preferencesEntry
      ensures users == LoadUsers(usersEntry) && currentUser == LoadCurrentUser(sessionEntry)
    {
      storedUsers, storedCurrentUser := usersEntry, sessionEntry;
      rememberMe, storedPreferences := remembered, preferencesEntry;
      users := LoadUsers(usersEntry);
      currentUser := LoadCurrentUser(sessionEntry);
    }

    /** `saveUsers`: `ok` is false when storage is unavailable or the write throws (quota), and
        then nothing is written. A successful write reads back as non-empty text. */
    method SaveUsers(ok: bool) returns (saved: bool)
      modifies this`storedUsers
      ensures saved == ok
      ensures storedUsers == if ok then Parsed(Wrap(users)) else old(storedUsers)
    {
      if !ok {
        return false;
      }
      storedUsers := Parsed(Wrap(users));
      saved := true;
    }

    /** `saveCurrentUser`. */
    method SaveCurrentUser(u: User)
      modifies this`storedCurrentUser
      ensures storedCurrentUser == Parsed(Some(u))
    {
      storedCurrentUser := Parsed(Some(u));
    }

    /**
     * `login`: an empty e-mail or password is refused before anything is read. Otherwise the
     * users are reloaded from storage and the first one whose normalised e-mail equals the
     * normalised input is looked up; only a matching password signs the user in.
     */
    method Login(emailInput: string, password: string, rememberChecked: bool) returns (result: LoginResult)
      modifies this`users, this`currentUser, this`storedCurrentUser, this`rememberMe
      ensures var email := NormalizeEmail(emailInput);
        && (result == EmptyField <==> email == "" || password == "")
        && (result == EmptyField ==> users == old(users))
        && (result != EmptyField ==> users == LoadUsers(old(storedUsers)))
        && (result == UserNotFound <==> result != EmptyField && FindByEmail(users, email).None?)
        && (result == InvalidPassword <==>
              result != EmptyField && FindByEmail(users, email).Some?
              && FindByEmail(users, email).value.password != password)
        && (result == LoggedIn ==>
              currentUser == FindByEmail(users, email) && currentUser.value.password == password
              && storedCurrentUser == Parsed(currentUser)
              && rememberMe == (old(rememberMe) || rememberChecked))
        && (result != LoggedIn ==>
              currentUser == old(currentUser) && storedCurrentUser == old(storedCurrentUser)
              && rememberMe == old(rememberMe))
    {
      var email := NormalizeEmail(emailInput);
      if email == "" || password == "" {
        return EmptyField;
      }
      users := LoadUsers(storedUsers);
      var user := FindByEmail(users, email);
      if user.None? {
        return UserNotFound;
      }
      if user.value.password != password {
        return InvalidPassword;
      }
      currentUser := user;
      SaveCurrentUser(user.value);
      if rememberChecked {
        rememberMe := true;
      }
      result := LoggedIn;
    }

    /**
     * `register`: the form checks in order; then the users are reloaded and an address already
     * taken (after normalisation) is refused; then the new user is validated, appended and
     * saved. A failed save filters the new id out again. A successful save signs the new user in;
     * the read-back check the page makes before that always finds the user (SavedUserReadsBack).
     */
    method Register(fullNameInput: string, emailInput: string, password: string, confirm: string,
                    agreeTerms: bool, photo: Option<string>, newId: string, createdAt: string, saveOk: bool)
      returns (result: RegisterResult)
      modifies this`users, this`storedUsers, this`currentUser, this`storedCurrentUser
      ensures var fullName, email := Trim(fullNameInput), NormalizeEmail(emailInput);
        var check := RegisterFormCheck(fullName, email, password, confirm, agreeTerms);
        var loaded := LoadUsers(old(storedUsers));
        var nu := NewUser(newId, fullName, email, password, photo, createdAt);
        && (check.Some? ==> result == check.value && users == old(users))
        && (check.None? && FindByEmail(loaded, email).Some? ==> result == DuplicateEmail && users == loaded)
        && (check.None? && FindByEmail(loaded, email).None? && !ValidateUserData(Some(nu)) ==>
              result == InvalidUserData && users == loaded)
        && (check.None? && FindByEmail(loaded, email).None? && ValidateUserData(Some(nu)) && !saveOk ==>
              result == SaveFailed && users == Filter(loaded + [nu], KeyIsNot(UserId, nu.id)))
        && (check.None? && FindByEmail(loaded, email).None? && ValidateUserData(Some(nu)) && saveOk ==>
              result == Registered && users == loaded + [nu] && storedUsers == Parsed(Wrap(users))
              && currentUser == Some(nu) && storedCurrentUser == Parsed(Some(nu)))
        && (result != Registered ==>
              storedUsers == old(storedUsers) && currentUser == old(currentUser)
              && storedCurrentUser == old(storedCurrentUser))
    {
      var fullName := Trim(fullNameInput);
      var email := NormalizeEmail(emailInput);
      var check := RegisterFormCheck(fullName, email, password, confirm, agreeTerms);
      if check.Some? {
        return check.value;
      }
      users := LoadUsers(storedUsers);
      if FindByEmail(users, email).Some? {
        return DuplicateEmail;
      }
      var nu := NewUser(newId, fullName, email, password, photo, createdAt);
      if !ValidateUserData(Some(nu)) {
        return InvalidUserData;
      }
      result := Enroll(nu, saveOk);
    }

    /** The tail of `register`: append the new user and save; a failed save filters its id out
        again, a successful one signs the user in. */
    method Enroll(nu: User, saveOk: bool) returns (result: RegisterResult)
      modifies this`users, this`storedUsers, this`currentUser, this`storedCurrentUser
      ensures !saveOk ==>
                result == SaveFailed && users == Filter(old(users) + [nu], KeyIsNot(UserId, nu.id))
                && storedUsers == old(storedUsers) && currentUser == old(currentUser)
                && storedCurrentUser == old(storedCurrentUser)
      ensures saveOk ==>
                result == Registered && users == old(users) + [nu] && storedUsers == Parsed(Wrap(users))
                && currentUser == Some(nu) && storedCurrentUser == Parsed(Some(nu))
    {
      users := users + [nu];
      var saved := SaveUsers(saveOk);
      if !saved {
        users := Filter(users, KeyIsNot(UserId, nu.id));
        return SaveFailed;
      }
      currentUser := Some(nu);
      SaveCurrentUser(nu);
      result := Registered;
    }

    /**
     * `resetPassword`: the form checks; then the users are reloaded (even when the address turns
     * out to be unknown). The first user with that normalised address gets the new password,
     * and the entry found by `findIndex` on its id is overwritten with it before saving.
     */
    method ResetPassword(emailInput: string, newPassword: string, confirm: string, saveOk: bool)
      returns (result: ResetResult)
      modifies this`users, this`storedUsers
      ensures var email := NormalizeEmail(emailInput);
        var check := ResetFormCheck(email, newPassword, confirm);
        var loaded := LoadUsers(old(storedUsers));
        var k := FirstIndex(loaded, EmailMatches(email));
        && (check.Some? ==> result == check.value && users == old(users) && storedUsers == old(storedUsers))
        && (check.None? && k.None? ==>
              result == ResetUserNotFound && users == loaded && storedUsers == old(storedUsers))
        && (check.None? && k.Some? ==>
              var updated := loaded[k.value].(password := newPassword);
              var j := FirstIndex(loaded[k.value := updated], KeyIs(UserId, updated.id));
              result == PasswordReset && j.Some? && j.value <= k.value
              && users == loaded[k.value := updated][j.value := updated]
              && storedUsers == if saveOk then Parsed(Wrap(users)) else old(storedUsers))
    {
      var email := NormalizeEmail(emailInput);
      var check := ResetFormCheck(email, newPassword, confirm);
      if check.Some? {
        return check.value;
      }
      users := LoadUsers(storedUsers);
      var k := FirstIndex(users, EmailMatches(email));
      if k.None? {
        return ResetUserNotFound;
      }
      // the found object is mutated in place, so the list sees the new password at once
      var updated := users[k.value].(password := newPassword);
      users := users[k.value := updated];
      var j := FirstIndex(users, KeyIs(UserId, updated.id));
      assert KeyIs(UserId, updated.id)(users[k.value]);
      users := users[j.value := updated];
      var _ := SaveUsers(saveOk);
      result := PasswordReset;
    }

    /** `updateUserProfile`: nothing without a session; otherwise the updates are merged into the
        session user, which is saved and written over the first user with its (new) id. */
    method UpdateUserProfile(patch: UserPatch, saveOk: bool)
      modifies this`users, this`storedUsers, this`currentUser, this`storedCurrentUser
      ensures old(currentUser).None? ==>
                users == old(users) && storedUsers == old(storedUsers)
                && currentUser == old(currentUser) && storedCurrentUser == old(storedCurrentUser)
      ensures old(currentUser).Some? ==>
                var merged := ApplyPatch(old(currentUser).value, patch);
                var i := FirstIndex(old(users), KeyIs(UserId, merged.id));
                && currentUser == Some(merged) && storedCurrentUser == Parsed(Some(merged))
                && (i.None? ==> users == old(users) && storedUsers == old(storedUsers))
                && (i.Some? ==> users == old(users)[i.value := merged]
                                && storedUsers == if saveOk then Parsed(Wrap(users)) else old(storedUsers))
    {
      if currentUser.None? {
        return;
      }
      var merged := ApplyPatch(currentUser.value, patch);
      currentUser := Some(merged);
      SaveCurrentUser(merged);
      var i := FirstIndex(users, KeyIs(UserId, merged.id));
      if i.Some? {
        users := users[i.value := merged];
        var _ := SaveUsers(saveOk);
      }
    }

    /** `getUserPreferences`. */
    method GetUserPreferences() returns (prefs: map<string, string>)
      ensures prefs == Preferences(storedPreferences)
    {
      prefs := Preferences(storedPreferences);
    }

    /** `saveUserPreferences`: the stored object becomes the current one overridden by `updates`. */
    method SaveUserPreferences(updates: map<string, string>)
      modifies this`storedPreferences
      ensures storedPreferences == Parsed(MergePreferences(Preferences(old(storedPreferences)), updates))
    {
      var current := GetUserPreferences();
      storedPreferences := Parsed(MergePreferences(current, updates));
    }

    /** `logout`: the session and the remember-me flag are cleared. */
    method Logout()
      modifies this`currentUser, this`storedCurrentUser, this`rememberMe
      ensures currentUser.None? && storedCurrentUser == Absent && !rememberMe
    {
      currentUser := None;
      storedCurrentUser := Absent;
      rememberMe := false;
    }
  }

  /** With unique ids the reset touches exactly the matched entry: its password changes and every
      other user is unchanged. */
  lemma ResetTouchesOneEntry(loaded: seq<User>, k: nat, newPassword: string)
    requires k < |loaded| && UniqueIds(loaded)
    ensures var updated := loaded[k].(password := newPassword);
      var j := FirstIndex(loaded[k := updated], KeyIs(UserId, updated.id));
      j == Some(k) && loaded[k := updated][j.value := updated] == loaded[k := updated]
  {
    var updated := loaded[k].(password := newPassword);
    var s := loaded[k := updated];
    var j := FirstIndex(s, KeyIs(UserId, updated.id));
    assert KeyIs(UserId, updated.id)(s[k]);
    forall i | 0 <= i < k
      ensures !KeyIs(UserId, updated.id)(s[i])
    {
      assert s[i] == loaded[i];
    }
  }
}
