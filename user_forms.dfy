// The administrator's create and edit forms for user accounts, with the
// username and email availability endpoints those forms call while the
// administrator types. Password hashing happens outside the model: the
// handlers receive the hash the hasher produced.
module UserForms {
  import opened Seqs
  import opened Text
  import opened Entities
  import opened Schema
  import opened Store

  /** How a user form post ends. */
  datatype UserFormOutcome = Invalid | NotFound | UsernameInUse | EmailInUse | Saved(id: int)

  /** The create form's fields (the password arrives already hashed). */
  datatype NewUserInput = NewUserInput(
    username: string,
    email: string,
    fullName: Option<string>,
    isActive: bool,
    selectedRoleIds: seq<int>)

  /** The edit form's fields; `newPassword` left empty keeps the stored hash. */
  datatype EditUserInput = EditUserInput(
    userId: int,
    username: string,
    email: string,
    fullName: Option<string>,
    newPassword: Option<string>,
    isActive: bool,
    selectedRoleIds: seq<int>)

  /** The ids of the roles linked to a user. */
  function RolesOfUser(links: set<UserRole>, userId: int): set<int>
  {
    set l | l in links && l.userId == userId :: l.roleId
  }

  /** The selected ids that name an existing role. */
  function ExistingSelected(roles: seq<Role>, selected: seq<int>): set<int>
  {
    set r | r in RoleIds(roles) && r in selected
  }

  /** `Roles.Where(r => selected.Contains(r.RoleId))`, as join rows for `userId`. */
  function SelectedRoleLinks(roles: seq<Role>, userId: int, selected: seq<int>): (links: set<UserRole>)
    ensures forall l :: l in links <==> l.userId == userId && l.roleId in ExistingSelected(roles, selected)
  {
    set r | r in roles && r.roleId in selected :: UserRole(userId, r.roleId)
  }

  /** The join rows of every user but `userId` (`user.Roles.Clear()`). */
  function LinksOfOthers(links: set<UserRole>, userId: int): (r: set<UserRole>)
    ensures forall l :: l in r <==> l in links && l.userId != userId
  {
    set l | l in links && l.userId != userId
  }

  predicate UsernameHeld(users: seq<User>, username: string)
  {
    Any(users, (u: User) => u.username == username)
  }

  predicate EmailHeld(users: seq<User>, email: string)
  {
    Any(users, (u: User) => u.email == email)
  }

  predicate UsernameHeldByOther(users: seq<User>, username: string, userId: int)
  {
    Any(users, (u: User) => u.username == username && u.userId != userId)
  }

  predicate EmailHeldByOther(users: seq<User>, email: string, userId: int)
  {
    Any(users, (u: User) => u.email == email && u.userId != userId)
  }

  // ---------------------------------------------------------------------------
  // Availability endpoints

  /** The create form's username check: a missing or empty name is reported available. */
  function CheckUsername(t: Tables, username: Option<string>): (available: bool)
    ensures available <==> IsNullOrEmpty(username) || forall u :: u in t.users ==> u.username != username.value
  {
    IsNullOrEmpty(username) || !UsernameHeld(t.users, username.value)
  }

  /** The create form's email check. */
  function CheckEmail(t: Tables, email: Option<string>): (available: bool)
    ensures available <==> IsNullOrEmpty(email) || forall u :: u in t.users ==> u.email != email.value
  {
    IsNullOrEmpty(email) || !EmailHeld(t.users, email.value)
  }

  /** The edit form's username check, which ignores the user being edited. */
  function CheckUsernameExcept(t: Tables, username: Option<string>, userId: int): (available: bool)
    ensures available <==>
      IsNullOrEmpty(username) || forall u :: u in t.users && u.userId != userId ==> u.username != username.value
  {
    IsNullOrEmpty(username) || !UsernameHeldByOther(t.users, username.value, userId)
  }

  /** The edit form's email check, which ignores the user being edited. */
  function CheckEmailExcept(t: Tables, email: Option<string>, userId: int): (available: bool)
    ensures available <==>
      IsNullOrEmpty(email) || forall u :: u in t.users && u.userId != userId ==> u.email != email.value
  {
    IsNullOrEmpty(email) || !EmailHeldByOther(t.users, email.value, userId)
  }

  // ---------------------------------------------------------------------------
  // Create

  function NewUserRow(id: int, input: NewUserInput, passwordHash: string, now: Time): User
  {
    User(id, input.username, passwordHash, input.email, input.fullName, Some(input.isActive), Some(now))
  }

  /**
   * The state after the create-user post, and how it ends. The user row
   * and its role links are written by two saves; the model shows the state
   * after both.
   */
  function CreateUserSpec(t: Tables, valid: bool, input: NewUserInput, passwordHash: string, now: Time): (Tables, UserFormOutcome)
  {
    if !valid then (t, Invalid)
    else if UsernameHeld(t.users, input.username) then (t, UsernameInUse)
    else if EmailHeld(t.users, input.email) then (t, EmailInUse)
    else
      var id := t.nextId;
      (t.(users := t.users + [NewUserRow(id, input, passwordHash, now)],
          userRoles := t.userRoles + SelectedRoleLinks(t.roles, id, input.selectedRoleIds),
          nextId := id + 1), Saved(id))
  }

  /** Adds a user, then links the selected roles, unless the input is invalid or the username or email is taken. */
  method CreateUser(ctx: Context, valid: bool, input: NewUserInput, passwordHash: string, now: Time)
      returns (res: UserFormOutcome)
    requires ctx.Valid()
    modifies ctx
    ensures (ctx.Db(), res) == CreateUserSpec(old(ctx.Db()), valid, input, passwordHash, now)
    ensures ctx.Valid()
  {
    ghost var t := ctx.Db();
    CreateUserKeepsValid(ctx.Db(), valid, input, passwordHash, now);
    if !valid {
      return Invalid;
    }
    var usernameTaken := UsernameHeld(ctx.users, input.username);
    if usernameTaken {
      return UsernameInUse;
    }
    var emailTaken := EmailHeld(ctx.users, input.email);
    if emailTaken {
      return EmailInUse;
    }
    var id := ctx.NewId();
    ctx.users := ctx.users + [NewUserRow(id, input, passwordHash, now)];
    if |input.selectedRoleIds| > 0 {
      ctx.userRoles := ctx.userRoles + SelectedRoleLinks(ctx.roles, id, input.selectedRoleIds);
    } else {
      assert SelectedRoleLinks(ctx.roles, id, input.selectedRoleIds) == {};
    }
    res := Saved(id);
    assert !UsernameHeld(t.users, input.username);
    assert !EmailHeld(t.users, input.email);
    assert ctx.users == t.users + [NewUserRow(t.nextId, input, passwordHash, now)];
    assert ctx.userRoles == t.userRoles + SelectedRoleLinks(t.roles, t.nextId, input.selectedRoleIds);
    assert ctx.nextId == t.nextId + 1;
  }

  /** Appending a user under the next identity value, with a username and email no user has, and links from it to existing roles. */
  lemma InsertUserKeepsValid(t: Tables, u: User, links: set<UserRole>)
    requires Valid(t) && u.userId == t.nextId
    requires forall x :: x in t.users ==> x.username != u.username && x.email != u.email
    requires forall l :: l in links ==> l.userId == u.userId && l.roleId in RoleIds(t.roles)
    ensures Valid(t.(users := t.users + [u], userRoles := t.userRoles + links, nextId := t.nextId + 1))
  {
    FreshAdvance(t);
    KeySetAppend(t.users, u, UserKey);
    var s := t.users + [u];
    assert forall x :: x in s ==> x in t.users || x == u;
    forall i, j | 0 <= i < j < |s|
      ensures s[i].userId != s[j].userId && s[i].username != s[j].username && s[i].email != s[j].email
    {
      assert s[i] == t.users[i] && s[i] in t.users;
      if j < |t.users| {
        assert s[j] == t.users[j];
      }
    }
  }

  lemma CreateUserKeepsValid(t: Tables, valid: bool, input: NewUserInput, passwordHash: string, now: Time)
    requires Valid(t)
    ensures Valid(CreateUserSpec(t, valid, input, passwordHash, now).0)
  {
    if valid && !UsernameHeld(t.users, input.username) && !EmailHeld(t.users, input.email) {
      var u := NewUserRow(t.nextId, input, passwordHash, now);
      forall x | x in t.users
        ensures x.username != u.username && x.email != u.email
      {
        var k :| 0 <= k < |t.users| && t.users[k] == x;
      }
      InsertUserKeepsValid(t, u, SelectedRoleLinks(t.roles, t.nextId, input.selectedRoleIds));
    }
  }

  /** A user id the database has not handed out has no role links. */
  lemma FreshUserHasNoRoles(t: Tables)
    requires Valid(t)
    ensures RolesOfUser(t.userRoles, t.nextId) == {}
  {
    forall l | l in t.userRoles
      ensures l.userId != t.nextId
    {
      var x :| x in t.users && x.userId == l.userId;
    }
  }

  /**
   * The create form is refused exactly when the input is invalid, some user
   * has the username, or (failing that) some user has the email; a refusal
   * changes nothing. A save adds one active-as-chosen user created now, with
   * the given hash, linked to exactly the selected roles that exist, and
   * changes no other user's links and no other table.
   */
  lemma CreateUserOutcome(t: Tables, valid: bool, input: NewUserInput, passwordHash: string, now: Time)
    requires Valid(t)
    ensures var (t', res) := CreateUserSpec(t, valid, input, passwordHash, now);
      (res == Invalid <==> !valid) &&
      (res == UsernameInUse <==> valid && exists u :: u in t.users && u.username == input.username) &&
      (res == EmailInUse <==>
         valid && (forall u :: u in t.users ==> u.username != input.username) &&
         exists u :: u in t.users && u.email == input.email) &&
      (!res.Saved? ==> t' == t)
    ensures var (t', res) := CreateUserSpec(t, valid, input, passwordHash, now);
      res.Saved? ==>
        (res.id !in UserIds(t.users) && |t'.users| == |t.users| + 1 && t'.users[..|t.users|] == t.users &&
         var u := t'.users[|t.users|];
         u.userId == res.id && u.username == input.username && u.email == input.email &&
         u.fullName == input.fullName && u.isActive == Some(input.isActive) &&
         u.passwordHash == passwordHash && u.createdAt == Some(now))
    ensures var (t', res) := CreateUserSpec(t, valid, input, passwordHash, now);
      res.Saved? ==>
        (RolesOfUser(t'.userRoles, res.id) == ExistingSelected(t.roles, input.selectedRoleIds) &&
         (forall l: UserRole :: l.userId != res.id ==> (l in t'.userRoles <==> l in t.userRoles)) &&
         t'.(users := t.users, userRoles := t.userRoles, nextId := t.nextId) == t)
  {
    var (t', res) := CreateUserSpec(t, valid, input, passwordHash, now);
    UsernameHeldIff(t.users, input.username);
    EmailHeldIff(t.users, input.email);
    if res.Saved? {
      FreshUserHasNoRoles(t);
      var id := res.id;
      var links := SelectedRoleLinks(t.roles, id, input.selectedRoleIds);
      forall r | r in RolesOfUser(t'.userRoles, id)
        ensures r in ExistingSelected(t.roles, input.selectedRoleIds)
      {
        var l :| l in t'.userRoles && l.userId == id && l.roleId == r;
        assert l !in t.userRoles;
      }
      forall r | r in ExistingSelected(t.roles, input.selectedRoleIds)
        ensures r in RolesOfUser(t'.userRoles, id)
      {
        assert UserRole(id, r) in links;
      }
      assert t'.users[..|t.users|] == t.users;
    }
  }

  lemma UsernameHeldIff(users: seq<User>, username: string)
    ensures UsernameHeld(users, username) <==> exists u :: u in users && u.username == username
  {
    if exists u :: u in users && u.username == username {
      var u :| u in users && u.username == username;
      var k :| 0 <= k < |users| && users[k] == u;
    }
    if UsernameHeld(users, username) {
      var k :| 0 <= k < |users| && users[k].username == username;
      assert users[k] in users;
    }
  }

  lemma EmailHeldIff(users: seq<User>, email: string)
    ensures EmailHeld(users, email) <==> exists u :: u in users && u.email == email
  {
    if exists u :: u in users && u.email == email {
      var u :| u in users && u.email == email;
      var k :| 0 <= k < |users| && users[k] == u;
    }
    if EmailHeld(users, email) {
      var k :| 0 <= k < |users| && users[k].email == email;
      assert users[k] in users;
    }
  }

  /**
   * For a valid post with a non-empty username and email, the create form
   * refuses a name or an email exactly when its availability endpoint
   * reports it taken, in the order the form checks them; after a save both
   * endpoints report the new user's username and email taken.
   */
  lemma CreateUserAgreesWithChecks(t: Tables, input: NewUserInput, passwordHash: string, now: Time)
    requires input.username != [] && input.email != []
    ensures var (t', res) := CreateUserSpec(t, true, input, passwordHash, now);
      (res == UsernameInUse <==> !CheckUsername(t, Some(input.username))) &&
      (res == EmailInUse <==> CheckUsername(t, Some(input.username)) && !CheckEmail(t, Some(input.email))) &&
      (res.Saved? ==> !CheckUsername(t', Some(input.username)) && !CheckEmail(t', Some(input.email)))
  {
    var (t', res) := CreateUserSpec(t, true, input, passwordHash, now);
    if res.Saved? {
      assert t'.users[|t.users|] in t'.users;
    }
  }

  // ---------------------------------------------------------------------------
  // Edit

  /** The user row after the edit: the four form fields, and the new hash only when a new password was typed. */
  function EditedUser(u: User, input: EditUserInput, passwordHash: string): User
  {
    u.(username := input.username, email := input.email, fullName := input.fullName,
       isActive := Some(input.isActive),
       passwordHash := if IsNullOrEmpty(input.newPassword) then u.passwordHash else passwordHash)
  }

  /** The state after the edit-user post, and how it ends. */
  function EditUserSpec(t: Tables, valid: bool, input: EditUserInput, passwordHash: string): (Tables, UserFormOutcome)
  {
    if !valid then (t, Invalid)
    else
      var i := FindUser(t.users, input.userId);
      if i.None? then (t, NotFound)
      else if UsernameHeldByOther(t.users, input.username, input.userId) then (t, UsernameInUse)
      else if EmailHeldByOther(t.users, input.email, input.userId) then (t, EmailInUse)
      else
        (t.(users := t.users[i.value := EditedUser(t.users[i.value], input, passwordHash)],
            userRoles := LinksOfOthers(t.userRoles, input.userId) +
                         SelectedRoleLinks(t.roles, input.userId, input.selectedRoleIds)),
         Saved(input.userId))
  }

  /**
   * Overwrites a user's fields, replaces the password hash when a new
   * password was typed, and replaces the user's roles by the selected ones,
   * unless the input is invalid, the user is unknown, or another user has
   * the username or email.
   */
  method EditUser(ctx: Context, valid: bool, input: EditUserInput, passwordHash: string) returns (res: UserFormOutcome)
    requires ctx.Valid()
    modifies ctx
    ensures (ctx.Db(), res) == EditUserSpec(old(ctx.Db()), valid, input, passwordHash)
    ensures ctx.Valid()
  {
    ghost var t := ctx.Db();
    EditUserKeepsValid(ctx.Db(), valid, input, passwordHash);
    if !valid {
      return Invalid;
    }
    var i := FindUser(ctx.users, input.userId);
    if i.None? {
      return NotFound;
    }
    var usernameTaken := UsernameHeldByOther(ctx.users, input.username, input.userId);
    if usernameTaken {
      return UsernameInUse;
    }
    var emailTaken := EmailHeldByOther(ctx.users, input.email, input.userId);
    if emailTaken {
      return EmailInUse;
    }
    var user := ctx.users[i.value].(username := input.username, email := input.email, fullName := input.fullName,
                                     isActive := Some(input.isActive));
    if !IsNullOrEmpty(input.newPassword) {
      user := user.(passwordHash := passwordHash);
    }
    ctx.users := ctx.users[i.value := user];
    ctx.userRoles := LinksOfOthers(ctx.userRoles, input.userId);
    if |input.selectedRoleIds| > 0 {
      ctx.userRoles := ctx.userRoles + SelectedRoleLinks(ctx.roles, input.userId, input.selectedRoleIds);
    } else {
      assert SelectedRoleLinks(ctx.roles, input.userId, input.selectedRoleIds) == {};
    }
    res := Saved(input.userId);
    assert ctx.users == t.users[i.value := EditedUser(t.users[i.value], input, passwordHash)];
    assert ctx.userRoles ==
      LinksOfOthers(t.userRoles, input.userId) + SelectedRoleLinks(t.roles, input.userId, input.selectedRoleIds);
  }

  lemma EditUserKeepsValid(t: Tables, valid: bool, input: EditUserInput, passwordHash: string)
    requires Valid(t)
    ensures Valid(EditUserSpec(t, valid, input, passwordHash).0)
  {
    var i := FindUser(t.users, input.userId);
    if valid && i.Some? && !UsernameHeldByOther(t.users, input.username, input.userId) &&
       !EmailHeldByOther(t.users, input.email, input.userId) {
      var u := EditedUser(t.users[i.value], input, passwordHash);
      forall j | 0 <= j < |t.users| && j != i.value
        ensures t.users[j].username != u.username && t.users[j].email != u.email
      {
        assert t.users[j].userId != input.userId;
      }
      ReplaceUserKeepsValid(t, i.value, u);
      var t1 := t.(users := t.users[i.value := u]);
      assert UserIds(t1.users) == UserIds(t.users) by {
        KeySetUpdate(t.users, i.value, u, UserKey);
      }
      assert input.userId in UserIds(t.users) by {
        assert t.users[i.value] in t.users;
      }
    }
  }

  /**
   * The edit form is refused exactly when the input is invalid, the user is
   * unknown, another user has the username, or (failing that) another user
   * has the email; a refusal changes nothing. A save rewrites only that
   * user's row: the form fields, and the hash exactly when a new password
   * was typed; the user's roles become exactly the selected roles that
   * exist, and no other user's links or other table change.
   */
  lemma EditUserOutcome(t: Tables, valid: bool, input: EditUserInput, passwordHash: string)
    requires Valid(t)
    ensures var (t', res) := EditUserSpec(t, valid, input, passwordHash);
      (res == Invalid <==> !valid) &&
      (res == NotFound <==> valid && input.userId !in UserIds(t.users)) &&
      (res == UsernameInUse <==>
         valid && input.userId in UserIds(t.users) &&
         exists u :: u in t.users && u.username == input.username && u.userId != input.userId) &&
      (res == EmailInUse <==>
         valid && input.userId in UserIds(t.users) &&
         (forall u :: u in t.users && u.userId != input.userId ==> u.username != input.username) &&
         exists u :: u in t.users && u.email == input.email && u.userId != input.userId) &&
      (!res.Saved? ==> t' == t)
    ensures var (t', res) := EditUserSpec(t, valid, input, passwordHash);
      res.Saved? ==>
        (res.id == input.userId && |t'.users| == |t.users| &&
         forall k :: 0 <= k < |t.users| ==>
           if t.users[k].userId == input.userId then
             var u := t'.users[k];
             u.userId == input.userId && u.username == input.username && u.email == input.email &&
             u.fullName == input.fullName && u.isActive == Some(input.isActive) &&
             u.createdAt == t.users[k].createdAt &&
             u.passwordHash == (if IsNullOrEmpty(input.newPassword) then t.users[k].passwordHash else passwordHash)
           else t'.users[k] == t.users[k])
    ensures var (t', res) := EditUserSpec(t, valid, input, passwordHash);
      res.Saved? ==>
        (RolesOfUser(t'.userRoles, input.userId) == ExistingSelected(t.roles, input.selectedRoleIds) &&
         (forall l: UserRole :: l.userId != input.userId ==> (l in t'.userRoles <==> l in t.userRoles)) &&
         t'.(users := t.users, userRoles := t.userRoles) == t)
  {
    var (t', res) := EditUserSpec(t, valid, input, passwordHash);
    UsernameHeldByOtherIff(t.users, input.username, input.userId);
    EmailHeldByOtherIff(t.users, input.email, input.userId);
    var i := FindUser(t.users, input.userId);
    if i.Some? {
      forall k | 0 <= k < |t.users| && k != i.value
        ensures t.users[k].userId != input.userId
      {
      }
    }
    if res.Saved? {
      var id := input.userId;
      var links := SelectedRoleLinks(t.roles, id, input.selectedRoleIds);
      forall r | r in RolesOfUser(t'.userRoles, id)
        ensures r in ExistingSelected(t.roles, input.selectedRoleIds)
      {
        var l :| l in t'.userRoles && l.userId == id && l.roleId == r;
      }
      forall r | r in ExistingSelected(t.roles, input.selectedRoleIds)
        ensures r in RolesOfUser(t'.userRoles, id)
      {
        assert UserRole(id, r) in links;
      }
    }
  }

  lemma UsernameHeldByOtherIff(users: seq<User>, username: string, userId: int)
    ensures UsernameHeldByOther(users, username, userId) <==>
      exists u :: u in users && u.username == username && u.userId != userId
  {
    if exists u :: u in users && u.username == username && u.userId != userId {
      var u :| u in users && u.username == username && u.userId != userId;
      var k :| 0 <= k < |users| && users[k] == u;
    }
    if UsernameHeldByOther(users, username, userId) {
      var k :| 0 <= k < |users| && users[k].username == username && users[k].userId != userId;
      assert users[k] in users;
    }
  }

  lemma EmailHeldByOtherIff(users: seq<User>, email: string, userId: int)
    ensures EmailHeldByOther(users, email, userId) <==>
      exists u :: u in users && u.email == email && u.userId != userId
  {
    if exists u :: u in users && u.email == email && u.userId != userId {
      var u :| u in users && u.email == email && u.userId != userId;
      var k :| 0 <= k < |users| && users[k] == u;
    }
    if EmailHeldByOther(users, email, userId) {
      var k :| 0 <= k < |users| && users[k].email == email && users[k].userId != userId;
      assert users[k] in users;
    }
  }

  /**
   * For a valid post with a non-empty username and email for an existing
   * user, the edit form refuses a name or an email exactly when the edit
   * form's endpoints report it taken; after a save the create form's
   * endpoints report both taken.
   */
  lemma EditUserAgreesWithChecks(t: Tables, input: EditUserInput, passwordHash: string)
    requires input.username != [] && input.email != [] && input.userId in UserIds(t.users)
    ensures var (t', res) := EditUserSpec(t, true, input, passwordHash);
      (res == UsernameInUse <==> !CheckUsernameExcept(t, Some(input.username), input.userId)) &&
      (res == EmailInUse <==>
         CheckUsernameExcept(t, Some(input.username), input.userId) &&
         !CheckEmailExcept(t, Some(input.email), input.userId)) &&
      (res.Saved? ==> !CheckUsername(t', Some(input.username)) && !CheckEmail(t', Some(input.email)))
  {
    var (t', res) := EditUserSpec(t, true, input, passwordHash);
    if res.Saved? {
      var i := FindUser(t.users, input.userId).value;
      assert t'.users[i] in t'.users;
    }
  }
}
