// The admin list of users (Pages/Admin/Users/Index): a search over
// username, email and full name, a status filter, a sort chosen by name
// and direction, and pages of fifteen whose number is clamped into range.
module UsersIndex {
  import opened Seqs
  import opened Sorting
  import opened Text
  import opened Entities
  import opened UserDelete
  import opened UserPages
  import opened AdminLists

  const UsersPageSize: int := 15

  // ---------------------------------------------------------------------------
  // The filters.

  /** The search: the lowered term occurs in the lowered username, email or (non-null) full name. */
  predicate UserMatches(u: User, needle: string)
  {
    Contains(ToLower(u.username), needle) || Contains(ToLower(u.email), needle) ||
    (u.fullName.Some? && Contains(ToLower(u.fullName.value), needle))
  }

  function UserSearch(needle: string): User -> bool
  {
    (u: User) => UserMatches(u, needle)
  }

  /** The status filter the lowered `StatusFilter` selects; any other value filters nothing. */
  datatype Status = Active | Inactive | Admins | PlainUsers | AnyStatus

  function ParseStatus(status: Option<string>): Status
  {
    if !Given(status) then AnyStatus
    else
      var s := ToLower(status.value);
      if s == "active" then Active
      else if s == "inactive" then Inactive
      else if s == "admin" then Admins
      else if s == "user" then PlainUsers
      else AnyStatus
  }

  predicate HasStatus(t: Tables, u: User, s: Status)
  {
    match s
    case Active => u.isActive == Some(true)
    case Inactive => u.isActive == Some(false)
    case Admins => "Admin" in RoleNames(t, u.userId)
    case PlainUsers => "User" in RoleNames(t, u.userId) && "Admin" !in RoleNames(t, u.userId)
    case AnyStatus => true
  }

  function StatusPass(t: Tables, s: Status): User -> bool
  {
    (u: User) => HasStatus(t, u, s)
  }

  /** The users left after the search and the status filter, in table order. */
  function MatchingUsers(t: Tables, searchTerm: Option<string>, status: Option<string>): seq<User>
  {
    var q := if Given(searchTerm) then Filter(t.users, UserSearch(ToLower(searchTerm.value))) else t.users;
    if ParseStatus(status) == AnyStatus then q else Filter(q, StatusPass(t, ParseStatus(status)))
  }

  /**
   * A user is listed exactly when it is in the table, matches the search
   * term when one is given, and has the selected status; an unknown
   * status filters nothing. The filtered count never exceeds the total.
   */
  lemma MatchingUsersSpec(t: Tables, searchTerm: Option<string>, status: Option<string>)
    ensures forall u :: u in MatchingUsers(t, searchTerm, status) <==>
      (u in t.users && (Given(searchTerm) ==> UserMatches(u, ToLower(searchTerm.value))) &&
       HasStatus(t, u, ParseStatus(status)))
    ensures |MatchingUsers(t, searchTerm, status)| <= |t.users|
  {
  }

  /** The status names are matched case-insensitively; a blank or unknown status selects every user. */
  lemma ParseStatusSpec(status: string)
    ensures ParseStatus(Some(status)) == Active <==> ToLower(status) == "active"
    ensures ParseStatus(Some(status)) == Inactive <==> ToLower(status) == "inactive"
    ensures ParseStatus(Some(status)) == Admins <==> ToLower(status) == "admin"
    ensures ParseStatus(Some(status)) == PlainUsers <==> ToLower(status) == "user"
    ensures ParseStatus(None) == AnyStatus && ParseStatus(Some("")) == AnyStatus
  {
    if status == [] {
      assert ToLower(status) == [];
    }
  }

  /** The two `Where` stages of `LoadUsers`, applied one after the other. */
  method FilterUsers(t: Tables, searchTerm: Option<string>, statusFilter: Option<string>) returns (query: seq<User>)
    ensures query == MatchingUsers(t, searchTerm, statusFilter)
  {
    query := t.users;
    if Given(searchTerm) {
      query := Filter(query, UserSearch(ToLower(searchTerm.value)));
    }
    var status := ParseStatus(statusFilter);
    if status != AnyStatus {
      query := Filter(query, StatusPass(t, status));
    }
  }

  // ---------------------------------------------------------------------------
  // ApplySortingAsc / ApplySortingDesc

  datatype UserOrder = ByUsername | ByEmail | ByFullName | ByCreatedAt | ByBookCount | ByReviewCount

  function ParseUserOrder(sortBy: string): UserOrder
  {
    var s := ToLower(sortBy);
    if s == "email" then ByEmail
    else if s == "fullname" then ByFullName
    else if s == "createdat" then ByCreatedAt
    else if s == "bookcount" then ByBookCount
    else if s == "reviewcount" then ByReviewCount
    else ByUsername
  }

  /** The sort key PostgreSQL compares; `FullName ?? Username`, and a null creation time sorts as the largest. */
  function UserOrderKey(t: Tables, o: UserOrder): User -> Key
  {
    (u: User) =>
      match o
      case ByUsername => [Str(u.username)]
      case ByEmail => [Str(u.email)]
      case ByFullName => [Str(if u.fullName.Some? then u.fullName.value else u.username)]
      case ByCreatedAt => TimeKey(u.createdAt, true)
      case ByBookCount => [IntAtom(Count(t.books, (b: Book) => AdministeredBy(b, u.userId)))]
      case ByReviewCount => [IntAtom(Count(t.reviews, (r: Review) => r.userId == u.userId))]
  }

  /** The sort names are matched case-insensitively and any other name sorts by username. */
  lemma ParseUserOrderSpec(sortBy: string)
    ensures ParseUserOrder(sortBy) == ByUsername <==>
      ToLower(sortBy) !in {"email", "fullname", "createdat", "bookcount", "reviewcount"}
    ensures ParseUserOrder(sortBy) == ByEmail <==> ToLower(sortBy) == "email"
    ensures ParseUserOrder(sortBy) == ByBookCount <==> ToLower(sortBy) == "bookcount"
  {
  }

  // ---------------------------------------------------------------------------
  // LoadUsers

  /** The bound query parameters and the properties `LoadUsers` fills in. */
  class UsersIndexPage {
    var searchTerm: Option<string>
    var statusFilter: Option<string>
    var sortBy: string
    var sortDirection: string
    var pageNumber: int
    var totalPages: int
    var totalUsers: int
    var filteredUsers: int
    var users: seq<User>

    /** The page as bound from the query string, before loading. */
    constructor (searchTerm: Option<string>, statusFilter: Option<string>, sortBy: string, sortDirection: string, pageNumber: int)
      ensures this.searchTerm == searchTerm && this.statusFilter == statusFilter
      ensures this.sortBy == sortBy && this.sortDirection == sortDirection && this.pageNumber == pageNumber
      ensures totalPages == 0 && totalUsers == 0 && filteredUsers == 0 && users == []
    {
      this.searchTerm := searchTerm;
      this.statusFilter := statusFilter;
      this.sortBy := sortBy;
      this.sortDirection := sortDirection;
      this.pageNumber := pageNumber;
      totalPages, totalUsers, filteredUsers, users := 0, 0, 0, [];
    }

    /** The users of the clamped page in the selected order. */
    function Listed(t: Tables): seq<User>
      reads this
    {
      PageOf(SortBy(MatchingUsers(t, searchTerm, statusFilter), UserOrderKey(t, ParseUserOrder(sortBy)), DescendingOf(sortDirection)),
        pageNumber, UsersPageSize)
    }

    /** `LoadUsers`: counts, filters, sorts, clamps the page number and takes the page. */
    method LoadUsers(t: Tables)
      modifies this
      ensures searchTerm == old(searchTerm) && statusFilter == old(statusFilter)
      ensures sortBy == old(sortBy) && sortDirection == old(sortDirection)
      ensures totalUsers == |t.users|
      ensures filteredUsers == |MatchingUsers(t, searchTerm, statusFilter)|
      ensures totalPages == CeilDiv(filteredUsers, UsersPageSize)
      ensures pageNumber == ClampPage(old(pageNumber), totalPages)
      ensures users == Listed(t)
    {
      var query := FilterUsers(t, searchTerm, statusFilter);
      var filtered := |query|;
      query := SortBy(query, UserOrderKey(t, ParseUserOrder(sortBy)), DescendingOf(sortDirection));
      var pages := CeilDiv(filtered, UsersPageSize);
      var page := pageNumber;
      if page < 1 {
        page := 1;
      }
      if page > pages && pages > 0 {
        page := pages;
      }
      Show(|t.users|, filtered, pages, page, PageOf(query, page, UsersPageSize));
    }

    /** Sets the properties the view renders; the bound query parameters stay. */
    method Show(total: int, filtered: int, pages: int, page: int, listed: seq<User>)
      modifies this
      ensures searchTerm == old(searchTerm) && statusFilter == old(statusFilter)
      ensures sortBy == old(sortBy) && sortDirection == old(sortDirection)
      ensures totalUsers == total && filteredUsers == filtered && totalPages == pages
      ensures pageNumber == page && users == listed
    {
      totalUsers, filteredUsers, totalPages, pageNumber, users := total, filtered, pages, page, listed;
    }
  }

  /**
   * After loading, the page holds at most fifteen users, each a matching
   * user, in the selected order; and it is never empty while some user
   * matches.
   */
  lemma ListedSpec(t: Tables, searchTerm: Option<string>, statusFilter: Option<string>, sortBy: string, sortDirection: string, page: int)
    ensures var matching := MatchingUsers(t, searchTerm, statusFilter);
      var key := UserOrderKey(t, ParseUserOrder(sortBy));
      var p := ClampPage(page, CeilDiv(|matching|, UsersPageSize));
      var listed := PageOf(SortBy(matching, key, DescendingOf(sortDirection)), p, UsersPageSize);
      |listed| <= UsersPageSize && (|matching| > 0 ==> |listed| > 0) &&
      Sorted(listed, key, DescendingOf(sortDirection)) &&
      forall u :: u in listed ==> u in matching
  {
    var matching := MatchingUsers(t, searchTerm, statusFilter);
    var key := UserOrderKey(t, ParseUserOrder(sortBy));
    var sorted := SortBy(matching, key, DescendingOf(sortDirection));
    var p := ClampPage(page, CeilDiv(|matching|, UsersPageSize));
    ClampedPageShows(sorted, page, UsersPageSize);
    SortBySorted(matching, key, DescendingOf(sortDirection));
    PageSorted(sorted, key, DescendingOf(sortDirection), p, UsersPageSize);
    SortByMembers(matching, key, DescendingOf(sortDirection));
  }
}
