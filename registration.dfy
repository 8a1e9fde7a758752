// Self-service registration: the username and email are compared with
// the existing accounts ignoring letter case, the new account is active,
// and it is linked to the role named "User" when that role exists. The
// password arrives already hashed.
module Registration {
  import opened Seqs
  import opened Text
  import opened Entities
  import opened Schema
  import opened Store
  import UserForms

  const DefaultRoleName := "User"

  /** The registration form's fields (the password arrives already hashed). */
  datatype RegisterInput = RegisterInput(username: string, email: string, fullName: string)

  /** A fresh, empty form. */
  function EmptyInput(): RegisterInput
  {
    RegisterInput("", "", "")
  }

  /** Which error message the page shows. */
  datatype RegisterError = UsernameExists | EmailExists

  /** How a registration post ends. */
  datatype RegisterOutcome = NotValid | Refused(error: RegisterError) | Registered(id: int)

  /** Some account has the username, ignoring letter case. */
  predicate UsernameHeldIgnoringCase(users: seq<User>, username: string)
  {
    Any(users, (u: User) => ToLower(u.username) == ToLower(username))
  }

  /** Some account has the email, ignoring letter case. */
  predicate EmailHeldIgnoringCase(users: seq<User>, email: string)
  {
    Any(users, (u: User) => ToLower(u.email) == ToLower(email))
  }

  predicate IsDefaultRole(r: Role)
  {
    r.roleName == DefaultRoleName
  }

  function NewAccount(id: int, input: RegisterInput, passwordHash: string, now: Time): User
  {
    User(id, input.username, passwordHash, input.email, Some(input.fullName), Some(true), Some(now))
  }

  /** The join row giving a new account the default role, if that role exists. */
  function DefaultRoleLinks(roles: seq<Role>, userId: int): set<UserRole>
  {
    var k := FirstIndex(roles, IsDefaultRole);
    if k.Some? then {UserRole(userId, roles[k.value].roleId)} else {}
  }

  /**
   * The state after the registration post, and how it ends. The account
   * and its role link are written by two saves; the model shows the state
   * after both.
   */
  function RegisterSpec(t: Tables, valid: bool, input: RegisterInput, passwordHash: string, now: Time): (Tables, RegisterOutcome)
  {
    if !valid then (t, NotValid)
    else if UsernameHeldIgnoringCase(t.users, input.username) then (t, Refused(UsernameExists))
    else if EmailHeldIgnoringCase(t.users, input.email) then (t, Refused(EmailExists))
    else
      var id := t.nextId;
      (t.(users := t.users + [NewAccount(id, input, passwordHash, now)],
          userRoles := t.userRoles + DefaultRoleLinks(t.roles, id),
          nextId := id + 1), Registered(id))
  }

  /** The bound form and the messages the page shows. */
  class RegisterPage {
    var input: RegisterInput
    var errorMessage: Option<RegisterError>
    var successMessage: bool

    /** The page as bound from the posted form, with no message yet. */
    constructor (input: RegisterInput)
      ensures this.input == input && errorMessage.None? && !successMessage
    {
      this.input := input;
      errorMessage := None;
      successMessage := false;
    }

    /**
     * `OnPostAsync`: an invalid form is shown again untouched; a taken
     * username or email sets the matching error; a registration sets the
     * success message and clears the form.
     */
    method OnPost(ctx: Context, valid: bool, passwordHash: string, now: Time) returns (outcome: RegisterOutcome)
      requires ctx.Valid()
      modifies this, ctx
      ensures (ctx.Db(), outcome) == RegisterSpec(old(ctx.Db()), valid, old(input), passwordHash, now)
      ensures ctx.Valid()
      ensures outcome.NotValid? ==>
        input == old(input) && errorMessage == old(errorMessage) && successMessage == old(successMessage)
      ensures outcome.Refused? ==>
        input == old(input) && errorMessage == Some(outcome.error) && successMessage == old(successMessage)
      ensures outcome.Registered? ==>
        input == EmptyInput() && errorMessage == old(errorMessage) && successMessage
    {
      outcome := Register(ctx, valid, input, passwordHash, now);
      match outcome {
        case NotValid =>
        case Refused(error) =>
          errorMessage := Some(error);
        case Registered(_) =>
          successMessage := true;
          input := EmptyInput();
      }
    }
  }

  /** The database side of `OnPostAsync`: the two checks, the new account and its default role. */
  method Register(ctx: Context, valid: bool, input: RegisterInput, passwordHash: string, now: Time)
      returns (outcome: RegisterOutcome)
    requires ctx.Valid()
    modifies ctx
    ensures (ctx.Db(), outcome) == RegisterSpec(old(ctx.Db()), valid, input, passwordHash, now)
    ensures ctx.Valid()
  {
    ghost var t := ctx.Db();
    RegisterKeepsValid(t, valid, input, passwordHash, now);
    if !valid {
      return NotValid;
    }
    var usernameTaken := UsernameHeldIgnoringCase(ctx.users, input.username);
    if usernameTaken {
      return Refused(UsernameExists);
    }
    var emailTaken := EmailHeldIgnoringCase(ctx.users, input.email);
    if emailTaken {
      return Refused(EmailExists);
    }
    var id := ctx.NewId();
    ctx.users := ctx.users + [NewAccount(id, input, passwordHash, now)];
    var userRole := FirstIndex(ctx.roles, IsDefaultRole);
    if userRole.Some? {
      ctx.userRoles := ctx.userRoles + {UserRole(id, ctx.roles[userRole.value].roleId)};
    } else {
      assert ctx.userRoles + DefaultRoleLinks(t.roles, id) == ctx.userRoles;
    }
    outcome := Registered(id);
  }

  lemma RegisterKeepsValid(t: Tables, valid: bool, input: RegisterInput, passwordHash: string, now: Time)
    requires Valid(t)
    ensures Valid(RegisterSpec(t, valid, input, passwordHash, now).0)
  {
    if valid && !UsernameHeldIgnoringCase(t.users, input.username) &&
       !EmailHeldIgnoringCase(t.users, input.email) {
      var u := NewAccount(t.nextId, input, passwordHash, now);
      forall x | x in t.users
        ensures x.username != u.username && x.email != u.email
      {
        var k :| 0 <= k < |t.users| && t.users[k] == x;
      }
      var links := DefaultRoleLinks(t.roles, t.nextId);
      forall l | l in links
        ensures l.userId == u.userId && l.roleId in RoleIds(t.roles)
      {
        var k := FirstIndex(t.roles, IsDefaultRole).value;
        assert t.roles[k] in t.roles;
      }
      UserForms.InsertUserKeepsValid(t, u, links);
    }
  }

  /** The ids of the roles named "User": on a valid database, at most one. */
  function DefaultRoleIds(roles: seq<Role>): set<int>
  {
    set r | r in roles && IsDefaultRole(r) :: r.roleId
  }

  /**
   * A registration is refused exactly when the form is invalid, an account
   * has the username ignoring case, or (failing that) an account has the
   * email ignoring case; a refusal changes nothing. A registration adds one
   * active account with the full name, the hash and the current time, whose
   * roles are exactly the role named "User" if it exists, and changes no
   * other account's links and no other table.
   */
  lemma RegisterOutcomeSpec(t: Tables, valid: bool, input: RegisterInput, passwordHash: string, now: Time)
    requires Valid(t)
    ensures var (t', res) := RegisterSpec(t, valid, input, passwordHash, now);
      (res == NotValid <==> !valid) &&
      (res == Refused(UsernameExists) <==>
         valid && exists u :: u in t.users && ToLower(u.username) == ToLower(input.username)) &&
      (res == Refused(EmailExists) <==>
         valid && (forall u :: u in t.users ==> ToLower(u.username) != ToLower(input.username)) &&
         exists u :: u in t.users && ToLower(u.email) == ToLower(input.email)) &&
      (!res.Registered? ==> t' == t)
    ensures var (t', res) := RegisterSpec(t, valid, input, passwordHash, now);
      res.Registered? ==>
        (res.id !in UserIds(t.users) && |t'.users| == |t.users| + 1 && t'.users[..|t.users|] == t.users &&
         var u := t'.users[|t.users|];
         u.userId == res.id && u.username == input.username && u.email == input.email &&
         u.fullName == Some(input.fullName) && u.isActive == Some(true) &&
         u.passwordHash == passwordHash && u.createdAt == Some(now))
    ensures var (t', res) := RegisterSpec(t, valid, input, passwordHash, now);
      res.Registered? ==>
        (UserForms.RolesOfUser(t'.userRoles, res.id) == DefaultRoleIds(t.roles) &&
         |DefaultRoleIds(t.roles)| <= 1 &&
         (forall l: UserRole :: l.userId != res.id ==> (l in t'.userRoles <==> l in t.userRoles)) &&
         t'.(users := t.users, userRoles := t.userRoles, nextId := t.nextId) == t)
  {
    var (t', res) := RegisterSpec(t, valid, input, passwordHash, now);
    CaseBlindHeldIff(t.users, input.username, input.email);
    DefaultRoleIdsAtMostOne(t.roles);
    if res.Registered? {
      UserForms.FreshUserHasNoRoles(t);
      var id := res.id;
      var k := FirstIndex(t.roles, IsDefaultRole);
      if k.Some? {
        assert t.roles[k.value] in t.roles;
        assert t.roles[k.value].roleId in DefaultRoleIds(t.roles);
      } else {
        forall r | r in t.roles
          ensures !IsDefaultRole(r)
        {
          var j :| 0 <= j < |t.roles| && t.roles[j] == r;
        }
      }
      assert t'.users[..|t.users|] == t.users;
    }
  }

  lemma CaseBlindHeldIff(users: seq<User>, username: string, email: string)
    ensures UsernameHeldIgnoringCase(users, username) <==>
      exists u :: u in users && ToLower(u.username) == ToLower(username)
    ensures EmailHeldIgnoringCase(users, email) <==>
      exists u :: u in users && ToLower(u.email) == ToLower(email)
  {
    if exists u :: u in users && ToLower(u.username) == ToLower(username) {
      var u :| u in users && ToLower(u.username) == ToLower(username);
      var k :| 0 <= k < |users| && users[k] == u;
    }
    if UsernameHeldIgnoringCase(users, username) {
      var k :| 0 <= k < |users| && ToLower(users[k].username) == ToLower(username);
      assert users[k] in users;
    }
    if exists u :: u in users && ToLower(u.email) == ToLower(email) {
      var u :| u in users && ToLower(u.email) == ToLower(email);
      var k :| 0 <= k < |users| && users[k] == u;
    }
    if EmailHeldIgnoringCase(users, email) {
      var k :| 0 <= k < |users| && ToLower(users[k].email) == ToLower(email);
      assert users[k] in users;
    }
  }

  /** Role names are unique, so at most one role is named "User". */
  lemma DefaultRoleIdsAtMostOne(roles: seq<Role>)
    requires RolesOk(roles)
    ensures |DefaultRoleIds(roles)| <= 1
  {
    var ids := DefaultRoleIds(roles);
    if ids != {} {
      var a :| a in ids;
      var ra :| ra in roles && IsDefaultRole(ra) && ra.roleId == a;
      var i :| 0 <= i < |roles| && roles[i] == ra;
      forall b | b in ids
        ensures b == a
      {
        var rb :| rb in roles && IsDefaultRole(rb) && rb.roleId == b;
        var j :| 0 <= j < |roles| && roles[j] == rb;
        assert roles[i].roleName == roles[j].roleName;
      }
      assert ids == {a};
    }
  }

  /**
   * Registration is stricter than the administrator's create form: a
   * registration succeeds only for a username and email that the create
   * form's availability endpoints report free.
   */
  lemma RegisteredNamesWereAvailable(t: Tables, input: RegisterInput, passwordHash: string, now: Time)
    ensures RegisterSpec(t, true, input, passwordHash, now).1.Registered? ==>
      UserForms.CheckUsername(t, Some(input.username)) && UserForms.CheckEmail(t, Some(input.email))
  {
    if RegisterSpec(t, true, input, passwordHash, now).1.Registered? {
      forall u | u in t.users
        ensures u.username != input.username && u.email != input.email
      {
        var k :| 0 <= k < |t.users| && t.users[k] == u;
      }
    }
  }

  /** Case matters nowhere in the check: "Alice" on file blocks a registration as "aLICE". */
  lemma RegisterIgnoresCase(t: Tables, input: RegisterInput, passwordHash: string, now: Time)
    requires input.username == "aLICE"
    requires exists u :: u in t.users && u.username == "Alice"
    ensures RegisterSpec(t, true, input, passwordHash, now).1 == Refused(UsernameExists)
  {
    var u :| u in t.users && u.username == "Alice";
    var k :| 0 <= k < |t.users| && t.users[k] == u;
    assert ToLower("Alice") == "alice";
    assert ToLower("aLICE") == "alice";
  }
}
