// What the admin user pages show about one user (Pages/Admin/Users/Details
// and the role helpers that Details and Delete share): the role label and
// its badge, the newest books, reviews and activity rows, and the number
// of favourites.
module UserPages {
  import opened Seqs
  import opened Sorting
  import opened Entities
  import opened Schema
  import opened Deletes
  import opened UserDelete

  // ---------------------------------------------------------------------------
  // GetUserRole / GetUserRoleBadgeClass

  /** The names of the roles linked to the user (`User.Roles`). */
  function RoleNames(t: Tables, userId: int): set<string>
  {
    set r | r in t.roles && UserRole(userId, r.roleId) in t.userRoles :: r.roleName
  }

  /** Which of the three labels a user gets: "Admin" wins over "User". */
  datatype RoleLabel = Administrator | RegularUser | Unassigned

  function LabelOf(roleNames: set<string>): (l: RoleLabel)
    ensures l == Administrator <==> "Admin" in roleNames
    ensures l == RegularUser <==> "User" in roleNames && "Admin" !in roleNames
    ensures l == Unassigned <==> "User" !in roleNames && "Admin" !in roleNames
  {
    if "Admin" in roleNames then Administrator
    else if "User" in roleNames then RegularUser
    else Unassigned
  }

  /** The label's text: administrator, user, or not assigned. */
  function LabelText(l: RoleLabel): string
  {
    match l
    case Administrator => "Quản trị viên"
    case RegularUser => "Người dùng"
    case Unassigned => "Chưa phân quyền"
  }

  /** The label's Bootstrap badge class. */
  function BadgeClass(l: RoleLabel): string
  {
    match l
    case Administrator => "bg-danger"
    case RegularUser => "bg-success"
    case Unassigned => "bg-secondary"
  }

  function GetUserRole(roleNames: set<string>): string
  {
    LabelText(LabelOf(roleNames))
  }

  function GetUserRoleBadgeClass(roleNames: set<string>): string
  {
    BadgeClass(LabelOf(roleNames))
  }

  /** The text names the strongest role the user holds: Admin first, then User, else none. */
  lemma GetUserRoleSpec(roleNames: set<string>)
    ensures GetUserRole(roleNames) == "Quản trị viên" <==> "Admin" in roleNames
    ensures GetUserRole(roleNames) == "Người dùng" <==> "User" in roleNames && "Admin" !in roleNames
    ensures GetUserRole(roleNames) == "Chưa phân quyền" <==> "User" !in roleNames && "Admin" !in roleNames
  {
    LabelTextDistinct();
  }

  /** The three texts differ from each other, and so do the three badge classes. */
  lemma LabelTextDistinct()
    ensures LabelText(Administrator) != LabelText(RegularUser)
    ensures LabelText(Administrator) != LabelText(Unassigned)
    ensures LabelText(RegularUser) != LabelText(Unassigned)
    ensures BadgeClass(Administrator) != BadgeClass(RegularUser)
    ensures BadgeClass(Administrator) != BadgeClass(Unassigned)
    ensures BadgeClass(RegularUser) != BadgeClass(Unassigned)
  {
    assert LabelText(Administrator)[0] == 'Q' && LabelText(RegularUser)[0] == 'N' && LabelText(Unassigned)[0] == 'C';
    assert BadgeClass(Administrator)[3] == 'd' && BadgeClass(RegularUser)[3] == 's' && BadgeClass(Unassigned)[4] == 'e';
    assert BadgeClass(RegularUser)[4] == 'u';
  }

  /** The badge follows the same precedence as the text: two users share a badge exactly when they share a label text. */
  lemma BadgeFollowsRole(a: set<string>, b: set<string>)
    ensures GetUserRoleBadgeClass(a) == GetUserRoleBadgeClass(b) <==> GetUserRole(a) == GetUserRole(b)
  {
    LabelTextDistinct();
  }

  // ---------------------------------------------------------------------------
  // Details OnGetAsync

  /** How many books, reviews and activity rows the page shows. */
  const BooksShown := 5
  const ReviewsShown := 5
  const ActivitiesShown := 10

  datatype UserDetails = UserDetails(
    user: User,
    roleNames: set<string>,
    userBooks: seq<Book>,
    userReviews: seq<Review>,
    recentActivities: seq<ActivityLog>,
    totalFavorites: nat)

  /** `UpdatedAt` of a loaded review: a null time sorts first, so last when descending. */
  function LoadedUpdatedKey(r: Review): Key
  {
    TimeKey(r.updatedAt, false)
  }

  /** `ActivityTime` sorted by PostgreSQL: a null time sorts as the largest. */
  function DbActivityKey(l: ActivityLog): Key
  {
    TimeKey(l.activityTime, true)
  }

  /** `ActivityTime` of a loaded row: a null time sorts as the smallest. */
  function LoadedActivityKey(l: ActivityLog): Key
  {
    TimeKey(l.activityTime, false)
  }

  function BooksAdministeredBy(t: Tables, userId: int): seq<Book>
  {
    Filter(t.books, (b: Book) => AdministeredBy(b, userId))
  }

  function ReviewsBy(t: Tables, userId: int): seq<Review>
  {
    Filter(t.reviews, (r: Review) => r.userId == userId)
  }

  function ActivityLogsOf(t: Tables, userId: int): seq<ActivityLog>
  {
    Filter(t.activityLogs, (l: ActivityLog) => l.userId == userId)
  }

  /**
   * The ten activity rows the filtered include loads (newest first in
   * the database), sorted again in memory and cut to ten.
   */
  function RecentActivitiesOf(t: Tables, userId: int): seq<ActivityLog>
  {
    var loaded := Take(SortBy(ActivityLogsOf(t, userId), DbActivityKey, true), ActivitiesShown);
    Take(SortBy(loaded, LoadedActivityKey, true), ActivitiesShown)
  }

  /** The page for an existing user, nothing for a missing id or user. */
  function UserDetailsPage(t: Tables, id: Option<int>): Option<UserDetails>
  {
    if id.None? then None
    else
      var i := FindUser(t.users, id.value);
      if i.None? then None
      else
        var uid := id.value;
        Some(UserDetails(
          t.users[i.value],
          RoleNames(t, uid),
          Take(SortBy(BooksAdministeredBy(t, uid), LoadedCreatedKey, true), BooksShown),
          Take(SortBy(ReviewsBy(t, uid), LoadedUpdatedKey, true), ReviewsShown),
          RecentActivitiesOf(t, uid),
          Count(t.favorites, (f: FavoriteBook) => f.userId == uid)))
  }

  /** The page exists exactly for an existing user, and shows that user's row. */
  lemma UserDetailsFound(t: Tables, id: Option<int>)
    ensures UserDetailsPage(t, id).Some? <==> id.Some? && id.value in UserIds(t.users)
    ensures var p := UserDetailsPage(t, id);
      p.Some? ==> p.value.user in t.users && p.value.user.userId == id.value
  {
    if id.Some? && FindUser(t.users, id.value).Some? {
      assert t.users[FindUser(t.users, id.value).value] in t.users;
    }
  }

  /**
   * The page shows the five newest of the books the user administers and
   * the five most recently updated of the user's reviews, newest first:
   * no book or review left out is newer than one shown. The favourite
   * total counts the user's favourite rows.
   */
  lemma UserDetailsSelections(t: Tables, uid: int)
    requires uid in UserIds(t.users)
    ensures var p := UserDetailsPage(t, Some(uid)).value;
      var books := BooksAdministeredBy(t, uid);
      |p.userBooks| == (if |books| < BooksShown then |books| else BooksShown) &&
      Sorted(p.userBooks, LoadedCreatedKey, true) &&
      (forall b :: b in p.userBooks ==> b in t.books && b.adminId == Some(uid)) &&
      (forall b, c :: b in p.userBooks && c in books && c !in p.userBooks ==> !Before(LoadedCreatedKey, true, c, b))
    ensures var p := UserDetailsPage(t, Some(uid)).value;
      var reviews := ReviewsBy(t, uid);
      |p.userReviews| == (if |reviews| < ReviewsShown then |reviews| else ReviewsShown) &&
      Sorted(p.userReviews, LoadedUpdatedKey, true) &&
      (forall r :: r in p.userReviews ==> r in t.reviews && r.userId == uid) &&
      (forall r, q :: r in p.userReviews && q in reviews && q !in p.userReviews ==> !Before(LoadedUpdatedKey, true, q, r))
    ensures UserDetailsPage(t, Some(uid)).value.totalFavorites == |Filter(t.favorites, (f: FavoriteBook) => f.userId == uid)|
  {
    TopOf(BooksAdministeredBy(t, uid), LoadedCreatedKey, true, BooksShown);
    TopOf(ReviewsBy(t, uid), LoadedUpdatedKey, true, ReviewsShown);
  }

  /** At most ten activity rows, all the user's, newest first; fewer than ten only when the user has fewer. */
  lemma RecentActivitiesSpec(t: Tables, uid: int)
    ensures var r := RecentActivitiesOf(t, uid);
      var logs := ActivityLogsOf(t, uid);
      |r| == (if |logs| < ActivitiesShown then |logs| else ActivitiesShown) &&
      Sorted(r, LoadedActivityKey, true) &&
      forall l :: l in r ==> l in t.activityLogs && l.userId == uid
  {
    var logs := ActivityLogsOf(t, uid);
    var loaded := Take(SortBy(logs, DbActivityKey, true), ActivitiesShown);
    TopOf(logs, DbActivityKey, true, ActivitiesShown);
    TopOf(loaded, LoadedActivityKey, true, ActivitiesShown);
  }
}
