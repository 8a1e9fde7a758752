// The administrator's create and edit forms for authors and publishers,
// with the publisher-name availability endpoints the forms call while the
// administrator types.
module CatalogueForms {
  import opened Seqs
  import opened Text
  import opened Entities
  import opened Schema
  import opened Store

  /**
   * How a form post ends: the form shown again because the input failed
   * validation or clashes with another row, the row to edit not found, or
   * the row saved under its id.
   */
  datatype FormOutcome = Invalid | NotFound | EmailInUse | NameInUse | Saved(id: int)

  /** An optional text box left blank or holding only white space is stored as null. */
  function NullIfBlank(s: Option<string>): (r: Option<string>)
    ensures r.None? <==> IsNullOrWhiteSpace(s)
    ensures r.Some? ==> r == s && r.value != []
  {
    if IsNullOrWhiteSpace(s) then None else s
  }

  // ---------------------------------------------------------------------------
  // Authors

  /** The author form's fields. */
  datatype AuthorInput = AuthorInput(
    authorName: string,
    email: Option<string>,
    birthDate: Option<Time>,
    biography: Option<string>,
    sex: Option<string>)

  /** The row the form stores: blank email, biography and sex become null. */
  function AuthorRow(id: int, input: AuthorInput): Author
  {
    Author(id, input.authorName, NullIfBlank(input.email), input.birthDate,
           NullIfBlank(input.biography), NullIfBlank(input.sex))
  }

  /** Some author already has exactly this email. */
  predicate AuthorEmailHeld(authors: seq<Author>, email: Option<string>)
  {
    Any(authors, (a: Author) => a.email == email)
  }

  /** Some author other than `authorId` already has exactly this email. */
  predicate AuthorEmailHeldByOther(authors: seq<Author>, email: Option<string>, authorId: int)
  {
    Any(authors, (a: Author) => a.email == email && a.authorId != authorId)
  }

  /** The state after the create-author post, and how it ends. The email is checked only when one was typed. */
  function CreateAuthorSpec(t: Tables, valid: bool, input: AuthorInput): (Tables, FormOutcome)
  {
    if !valid then (t, Invalid)
    else if !IsNullOrEmpty(input.email) && AuthorEmailHeld(t.authors, input.email) then (t, EmailInUse)
    else (t.(authors := t.authors + [AuthorRow(t.nextId, input)], nextId := t.nextId + 1), Saved(t.nextId))
  }

  /** Adds an author unless the input is invalid or another author already has the typed email. */
  method CreateAuthor(ctx: Context, valid: bool, input: AuthorInput) returns (res: FormOutcome)
    requires ctx.Valid()
    modifies ctx
    ensures (ctx.Db(), res) == CreateAuthorSpec(old(ctx.Db()), valid, input)
    ensures ctx.Valid()
  {
    CreateAuthorKeepsValid(ctx.Db(), valid, input);
    if !valid {
      return Invalid;
    }
    if !IsNullOrEmpty(input.email) {
      var existing := FirstIndex(ctx.authors, (a: Author) => a.email == input.email);
      if existing.Some? {
        return EmailInUse;
      }
    }
    var id := ctx.NewId();
    ctx.authors := ctx.authors + [AuthorRow(id, input)];
    res := Saved(id);
  }

  /** The state after the edit-author post, and how it ends. */
  function EditAuthorSpec(t: Tables, valid: bool, authorId: int, input: AuthorInput): (Tables, FormOutcome)
  {
    if !valid then (t, Invalid)
    else
      var i := FindAuthor(t.authors, authorId);
      if i.None? then (t, NotFound)
      else if !IsNullOrEmpty(input.email) && AuthorEmailHeldByOther(t.authors, input.email, authorId) then (t, EmailInUse)
      else (t.(authors := t.authors[i.value := AuthorRow(authorId, input)]), Saved(authorId))
  }

  /** Overwrites an author's columns unless the input is invalid, the author is unknown or another author has the typed email. */
  method EditAuthor(ctx: Context, valid: bool, authorId: int, input: AuthorInput) returns (res: FormOutcome)
    requires ctx.Valid()
    modifies ctx
    ensures (ctx.Db(), res) == EditAuthorSpec(old(ctx.Db()), valid, authorId, input)
    ensures ctx.Valid()
  {
    EditAuthorKeepsValid(ctx.Db(), valid, authorId, input);
    if !valid {
      return Invalid;
    }
    var i := FindAuthor(ctx.authors, authorId);
    if i.None? {
      return NotFound;
    }
    if !IsNullOrEmpty(input.email) {
      var existing := FirstIndex(ctx.authors, (a: Author) => a.email == input.email && a.authorId != authorId);
      if existing.Some? {
        return EmailInUse;
      }
    }
    ctx.authors := ctx.authors[i.value := AuthorRow(authorId, input)];
    res := Saved(authorId);
  }

  /** Appending an author under the next identity value whose email, if any, no author has. */
  lemma InsertAuthorKeepsValid(t: Tables, a: Author)
    requires Valid(t) && a.authorId == t.nextId
    requires a.email.Some? ==> forall x :: x in t.authors ==> x.email != a.email
    ensures Valid(t.(authors := t.authors + [a], nextId := t.nextId + 1))
  {
    FreshAdvance(t);
    KeySetAppend(t.authors, a, AuthorKey);
    var s := t.authors + [a];
    assert forall x :: x in s ==> x in t.authors || x == a;
    forall i, j | 0 <= i < j < |s|
      ensures s[i].authorId != s[j].authorId
      ensures s[i].email.Some? && s[j].email.Some? ==> s[i].email != s[j].email
    {
      assert s[i] == t.authors[i] && s[i] in t.authors;
      if j < |t.authors| {
        assert s[j] == t.authors[j];
      }
    }
  }

  /** Overwriting an author's columns, keeping the id, with an email no other author has. */
  lemma ReplaceAuthorKeepsValid(t: Tables, i: nat, a: Author)
    requires Valid(t) && i < |t.authors|
    requires a.authorId == t.authors[i].authorId
    requires a.email.Some? ==> forall j :: 0 <= j < |t.authors| && j != i ==> t.authors[j].email != a.email
    ensures Valid(t.(authors := t.authors[i := a]))
  {
    KeySetUpdate(t.authors, i, a, AuthorKey);
    assert t.authors[i] in t.authors;
    assert forall x :: x in t.authors[i := a] ==> x in t.authors || x == a;
  }

  lemma CreateAuthorKeepsValid(t: Tables, valid: bool, input: AuthorInput)
    requires Valid(t)
    ensures Valid(CreateAuthorSpec(t, valid, input).0)
  {
    var a := AuthorRow(t.nextId, input);
    if valid && !(!IsNullOrEmpty(input.email) && AuthorEmailHeld(t.authors, input.email)) && a.email.Some? {
      forall x | x in t.authors
        ensures x.email != a.email
      {
        var k :| 0 <= k < |t.authors| && t.authors[k] == x;
      }
    }
    if valid && !(!IsNullOrEmpty(input.email) && AuthorEmailHeld(t.authors, input.email)) {
      InsertAuthorKeepsValid(t, a);
    }
  }

  lemma EditAuthorKeepsValid(t: Tables, valid: bool, authorId: int, input: AuthorInput)
    requires Valid(t)
    ensures Valid(EditAuthorSpec(t, valid, authorId, input).0)
  {
    var i := FindAuthor(t.authors, authorId);
    if valid && i.Some? && !(!IsNullOrEmpty(input.email) && AuthorEmailHeldByOther(t.authors, input.email, authorId)) {
      var a := AuthorRow(authorId, input);
      if a.email.Some? {
        forall j | 0 <= j < |t.authors| && j != i.value
          ensures t.authors[j].email != a.email
        {
          assert t.authors[j].authorId != authorId;
        }
      }
      ReplaceAuthorKeepsValid(t, i.value, a);
    }
  }

  /**
   * The create form is refused exactly when the input is invalid, or an
   * email was typed and some author already has it. A refusal changes
   * nothing. A save adds one author under a new id, with a blank email
   * stored as null, and changes no other table.
   */
  lemma CreateAuthorOutcome(t: Tables, valid: bool, input: AuthorInput)
    requires Valid(t)
    ensures var (t', res) := CreateAuthorSpec(t, valid, input);
      (res == Invalid <==> !valid) &&
      (res == EmailInUse <==> valid && input.email.Some? && input.email.value != [] &&
                              exists a :: a in t.authors && a.email == input.email) &&
      (!res.Saved? ==> t' == t)
    ensures var (t', res) := CreateAuthorSpec(t, valid, input);
      res.Saved? ==>
        res.id !in AuthorIds(t.authors) &&
        AuthorIds(t'.authors) == AuthorIds(t.authors) + {res.id} &&
        t'.authors[..|t.authors|] == t.authors &&
        t'.(authors := t.authors, nextId := t.nextId) == t
    ensures var (t', res) := CreateAuthorSpec(t, valid, input);
      res.Saved? ==>
        (|t'.authors| == |t.authors| + 1 &&
         var a := t'.authors[|t.authors|];
         a.authorId == res.id && a.authorName == input.authorName && a.birthDate == input.birthDate &&
         (a.email.None? <==> IsNullOrWhiteSpace(input.email)) && (a.email.Some? ==> a.email == input.email))
  {
    var (t', res) := CreateAuthorSpec(t, valid, input);
    if exists a :: a in t.authors && a.email == input.email {
      var a :| a in t.authors && a.email == input.email;
      var k :| 0 <= k < |t.authors| && t.authors[k] == a;
    }
    if AuthorEmailHeld(t.authors, input.email) {
      var k :| 0 <= k < |t.authors| && t.authors[k].email == input.email;
      assert t.authors[k] in t.authors;
    }
    if res.Saved? {
      KeySetAppend(t.authors, AuthorRow(t.nextId, input), AuthorKey);
      assert t'.authors[..|t.authors|] == t.authors;
    }
  }

  /**
   * The edit form is refused exactly when the input is invalid, the author
   * is unknown, or an email was typed that another author has. A refusal
   * changes nothing; a save rewrites that author's columns and nothing else.
   */
  lemma EditAuthorOutcome(t: Tables, valid: bool, authorId: int, input: AuthorInput)
    requires Valid(t)
    ensures var (t', res) := EditAuthorSpec(t, valid, authorId, input);
      (res == Invalid <==> !valid) &&
      (res == NotFound <==> valid && authorId !in AuthorIds(t.authors)) &&
      (res == EmailInUse <==> valid && authorId in AuthorIds(t.authors) &&
                              input.email.Some? && input.email.value != [] &&
                              exists a :: a in t.authors && a.email == input.email && a.authorId != authorId) &&
      (!res.Saved? ==> t' == t)
    ensures var (t', res) := EditAuthorSpec(t, valid, authorId, input);
      res.Saved? ==>
        res.id == authorId && t'.(authors := t.authors) == t && |t'.authors| == |t.authors| &&
        forall k :: 0 <= k < |t.authors| ==>
          t'.authors[k] == if t.authors[k].authorId == authorId then AuthorRow(authorId, input) else t.authors[k]
  {
    AuthorEmailHeldIff(t.authors, input.email, authorId);
    if FindAuthor(t.authors, authorId).Some? {
      OverwriteAuthor(t.authors, authorId, AuthorRow(authorId, input));
    }
  }

  /** The `AnyAsync` test finds exactly the other authors holding the e-mail. */
  lemma AuthorEmailHeldIff(authors: seq<Author>, email: Option<string>, authorId: int)
    ensures AuthorEmailHeldByOther(authors, email, authorId) <==>
      exists a :: a in authors && a.email == email && a.authorId != authorId
  {
    if exists a :: a in authors && a.email == email && a.authorId != authorId {
      var a :| a in authors && a.email == email && a.authorId != authorId;
      var k :| 0 <= k < |authors| && authors[k] == a;
    }
    if AuthorEmailHeldByOther(authors, email, authorId) {
      var k :| 0 <= k < |authors| && authors[k].email == email && authors[k].authorId != authorId;
      assert authors[k] in authors;
    }
  }

  /** Overwriting the row found by key replaces that author and no other. */
  lemma OverwriteAuthor(authors: seq<Author>, authorId: int, row: Author)
    requires AuthorsOk(authors) && FindAuthor(authors, authorId).Some?
    ensures var s := authors[FindAuthor(authors, authorId).value := row];
      |s| == |authors| &&
      forall k :: 0 <= k < |authors| ==> s[k] == if authors[k].authorId == authorId then row else authors[k]
  {
    var i := FindAuthor(authors, authorId).value;
    forall k | 0 <= k < |authors| && k != i
      ensures authors[k].authorId != authorId
    {
    }
  }

  // ---------------------------------------------------------------------------
  // Publishers

  /** The publisher form's fields; unlike the author form, blank optional fields are stored as typed. */
  datatype PublisherInput = PublisherInput(publisherName: string, address: Option<string>, website: Option<string>)

  function PublisherRow(id: int, input: PublisherInput): Publisher
  {
    Publisher(id, input.publisherName, input.address, input.website)
  }

  /** Some publisher already has exactly this name. */
  predicate NameHeld(publishers: seq<Publisher>, name: string)
  {
    Any(publishers, (p: Publisher) => p.publisherName == name)
  }

  /** Some publisher other than `publisherId` already has exactly this name. */
  predicate NameHeldByOther(publishers: seq<Publisher>, name: string, publisherId: int)
  {
    Any(publishers, (p: Publisher) => p.publisherName == name && p.publisherId != publisherId)
  }

  /** The state after the create-publisher post, and how it ends. */
  function CreatePublisherSpec(t: Tables, valid: bool, input: PublisherInput): (Tables, FormOutcome)
  {
    if !valid then (t, Invalid)
    else if NameHeld(t.publishers, input.publisherName) then (t, NameInUse)
    else (t.(publishers := t.publishers + [PublisherRow(t.nextId, input)], nextId := t.nextId + 1), Saved(t.nextId))
  }

  /** Adds a publisher unless the input is invalid or the name is taken. */
  method CreatePublisher(ctx: Context, valid: bool, input: PublisherInput) returns (res: FormOutcome)
    requires ctx.Valid()
    modifies ctx
    ensures (ctx.Db(), res) == CreatePublisherSpec(old(ctx.Db()), valid, input)
    ensures ctx.Valid()
  {
    CreatePublisherKeepsValid(ctx.Db(), valid, input);
    if !valid {
      return Invalid;
    }
    var taken := Any(ctx.publishers, (p: Publisher) => p.publisherName == input.publisherName);
    if taken {
      return NameInUse;
    }
    var id := ctx.NewId();
    ctx.publishers := ctx.publishers + [PublisherRow(id, input)];
    res := Saved(id);
  }

  /** The state after the edit-publisher post, and how it ends. */
  function EditPublisherSpec(t: Tables, valid: bool, publisherId: int, input: PublisherInput): (Tables, FormOutcome)
  {
    if !valid then (t, Invalid)
    else
      var i := FindPublisher(t.publishers, publisherId);
      if i.None? then (t, NotFound)
      else if NameHeldByOther(t.publishers, input.publisherName, publisherId) then (t, NameInUse)
      else (t.(publishers := t.publishers[i.value := PublisherRow(publisherId, input)]), Saved(publisherId))
  }

  /** Overwrites a publisher's columns unless the input is invalid, the publisher is unknown or another publisher has the name. */
  method EditPublisher(ctx: Context, valid: bool, publisherId: int, input: PublisherInput) returns (res: FormOutcome)
    requires ctx.Valid()
    modifies ctx
    ensures (ctx.Db(), res) == EditPublisherSpec(old(ctx.Db()), valid, publisherId, input)
    ensures ctx.Valid()
  {
    EditPublisherKeepsValid(ctx.Db(), valid, publisherId, input);
    if !valid {
      return Invalid;
    }
    var i := FindPublisher(ctx.publishers, publisherId);
    if i.None? {
      return NotFound;
    }
    var taken := Any(ctx.publishers, (p: Publisher) => p.publisherName == input.publisherName && p.publisherId != publisherId);
    if taken {
      return NameInUse;
    }
    ctx.publishers := ctx.publishers[i.value := PublisherRow(publisherId, input)];
    res := Saved(publisherId);
  }

  lemma CreatePublisherKeepsValid(t: Tables, valid: bool, input: PublisherInput)
    requires Valid(t)
    ensures Valid(CreatePublisherSpec(t, valid, input).0)
  {
    if valid && !NameHeld(t.publishers, input.publisherName) {
      var p := PublisherRow(t.nextId, input);
      FreshAdvance(t);
      KeySetAppend(t.publishers, p, PublisherKey);
      var s := t.publishers + [p];
      assert forall x :: x in s ==> x in t.publishers || x == p;
      forall i, j | 0 <= i < j < |s|
        ensures s[i].publisherId != s[j].publisherId
      {
        assert s[i] == t.publishers[i] && s[i] in t.publishers;
        if j < |t.publishers| {
          assert s[j] == t.publishers[j];
        }
      }
    }
  }

  lemma EditPublisherKeepsValid(t: Tables, valid: bool, publisherId: int, input: PublisherInput)
    requires Valid(t)
    ensures Valid(EditPublisherSpec(t, valid, publisherId, input).0)
  {
    var i := FindPublisher(t.publishers, publisherId);
    if valid && i.Some? && !NameHeldByOther(t.publishers, input.publisherName, publisherId) {
      var p := PublisherRow(publisherId, input);
      KeySetUpdate(t.publishers, i.value, p, PublisherKey);
      assert t.publishers[i.value] in t.publishers;
      assert forall x :: x in t.publishers[i.value := p] ==> x in t.publishers || x == p;
    }
  }

  /** The name availability endpoint of the create form: a missing or empty name is reported available. */
  function CheckName(t: Tables, name: Option<string>): (available: bool)
    ensures available <==> IsNullOrEmpty(name) || forall p :: p in t.publishers ==> p.publisherName != name.value
  {
    IsNullOrEmpty(name) || !NameHeld(t.publishers, name.value)
  }

  /** The name availability endpoint of the edit form, which ignores the publisher being edited. */
  function CheckNameExcept(t: Tables, name: Option<string>, publisherId: int): (available: bool)
    ensures available <==>
      IsNullOrEmpty(name) ||
      forall p :: p in t.publishers && p.publisherId != publisherId ==> p.publisherName != name.value
  {
    IsNullOrEmpty(name) || !NameHeldByOther(t.publishers, name.value, publisherId)
  }

  /** Publisher names are pairwise different: the forms keep this, the database does not enforce it. */
  predicate NamesDistinct(publishers: seq<Publisher>)
  {
    forall i, j :: 0 <= i < j < |publishers| ==> publishers[i].publisherName != publishers[j].publisherName
  }

  /**
   * For a valid post of a non-empty name, the create form refuses the name
   * exactly when its availability endpoint reports it taken; after a save,
   * the endpoint reports the name taken.
   */
  lemma CreatePublisherAgreesWithCheck(t: Tables, input: PublisherInput)
    requires input.publisherName != []
    ensures var (t', res) := CreatePublisherSpec(t, true, input);
      (res == NameInUse <==> !CheckName(t, Some(input.publisherName))) &&
      (res.Saved? ==> !CheckName(t', Some(input.publisherName)))
  {
    var (t', res) := CreatePublisherSpec(t, true, input);
    if res.Saved? {
      assert t'.publishers[|t.publishers|] in t'.publishers;
    }
  }

  /**
   * For a valid post of a non-empty name for an existing publisher, the edit
   * form refuses the name exactly when the edit form's endpoint reports it
   * taken; after a save, the create form's endpoint reports it taken.
   */
  lemma EditPublisherAgreesWithCheck(t: Tables, publisherId: int, input: PublisherInput)
    requires input.publisherName != [] && publisherId in PublisherIds(t.publishers)
    ensures var (t', res) := EditPublisherSpec(t, true, publisherId, input);
      (res == NameInUse <==> !CheckNameExcept(t, Some(input.publisherName), publisherId)) &&
      (res.Saved? ==> !CheckName(t', Some(input.publisherName)))
  {
    var (t', res) := EditPublisherSpec(t, true, publisherId, input);
    if res.Saved? {
      var i := FindPublisher(t.publishers, publisherId).value;
      assert t'.publishers[i] in t'.publishers;
    }
  }

  /** Both publisher forms keep the names pairwise different. */
  lemma PublisherFormsKeepNamesDistinct(t: Tables, valid: bool, publisherId: int, input: PublisherInput)
    requires PublishersOk(t.publishers) && NamesDistinct(t.publishers)
    ensures NamesDistinct(CreatePublisherSpec(t, valid, input).0.publishers)
    ensures NamesDistinct(EditPublisherSpec(t, valid, publisherId, input).0.publishers)
  {
    var (c, cr) := CreatePublisherSpec(t, valid, input);
    if cr.Saved? {
      var s := c.publishers;
      forall i, j | 0 <= i < j < |s|
        ensures s[i].publisherName != s[j].publisherName
      {
        assert s[i] == t.publishers[i];
        if j == |t.publishers| {
          assert !(t.publishers[i].publisherName == input.publisherName);
        } else {
          assert s[j] == t.publishers[j];
        }
      }
    }
    var (e, er) := EditPublisherSpec(t, valid, publisherId, input);
    if er.Saved? {
      var k := FindPublisher(t.publishers, publisherId).value;
      forall m | 0 <= m < |t.publishers| && m != k
        ensures t.publishers[m].publisherName != input.publisherName
      {
        assert t.publishers[m].publisherId != publisherId;
      }
      var s := e.publishers;
      forall i, j | 0 <= i < j < |s|
        ensures s[i].publisherName != s[j].publisherName
      {
      }
    }
  }

  /**
   * The create form is refused exactly when the input is invalid or some
   * publisher has the name. A refusal changes nothing; a save appends one
   * publisher under a new id and touches no other table.
   */
  lemma CreatePublisherOutcome(t: Tables, valid: bool, input: PublisherInput)
    requires Valid(t)
    ensures var (t', res) := CreatePublisherSpec(t, valid, input);
      (res == Invalid <==> !valid) &&
      (res == NameInUse <==> valid && exists p :: p in t.publishers && p.publisherName == input.publisherName) &&
      (!res.Saved? ==> t' == t)
    ensures var (t', res) := CreatePublisherSpec(t, valid, input);
      res.Saved? ==>
        (res.id !in PublisherIds(t.publishers) &&
         t'.publishers == t.publishers + [PublisherRow(res.id, input)] &&
         t'.(publishers := t.publishers, nextId := t.nextId) == t)
  {
    if exists p :: p in t.publishers && p.publisherName == input.publisherName {
      var p :| p in t.publishers && p.publisherName == input.publisherName;
      var k :| 0 <= k < |t.publishers| && t.publishers[k] == p;
    }
    if NameHeld(t.publishers, input.publisherName) {
      var k :| 0 <= k < |t.publishers| && t.publishers[k].publisherName == input.publisherName;
      assert t.publishers[k] in t.publishers;
    }
  }

  /**
   * The edit form is refused exactly when the input is invalid, the
   * publisher is unknown, or another publisher has the name. A refusal
   * changes nothing; a save rewrites that publisher's columns and nothing else.
   */
  lemma EditPublisherOutcome(t: Tables, valid: bool, publisherId: int, input: PublisherInput)
    requires Valid(t)
    ensures var (t', res) := EditPublisherSpec(t, valid, publisherId, input);
      (res == Invalid <==> !valid) &&
      (res == NotFound <==> valid && publisherId !in PublisherIds(t.publishers)) &&
      (res == NameInUse <==>
         valid && publisherId in PublisherIds(t.publishers) &&
         exists p :: p in t.publishers && p.publisherName == input.publisherName && p.publisherId != publisherId) &&
      (!res.Saved? ==> t' == t)
    ensures var (t', res) := EditPublisherSpec(t, valid, publisherId, input);
      res.Saved? ==>
        (t'.(publishers := t.publishers) == t && |t'.publishers| == |t.publishers| &&
         forall k :: 0 <= k < |t.publishers| ==>
           t'.publishers[k] == if t.publishers[k].publisherId == publisherId then PublisherRow(publisherId, input)
                               else t.publishers[k])
  {
    NameHeldIff(t.publishers, input.publisherName, publisherId);
    if FindPublisher(t.publishers, publisherId).Some? {
      OverwritePublisher(t.publishers, publisherId, PublisherRow(publisherId, input));
    }
  }

  /** The name test finds exactly the other publishers holding the name. */
  lemma NameHeldIff(publishers: seq<Publisher>, name: string, publisherId: int)
    ensures NameHeldByOther(publishers, name, publisherId) <==>
      exists p :: p in publishers && p.publisherName == name && p.publisherId != publisherId
  {
    if exists p :: p in publishers && p.publisherName == name && p.publisherId != publisherId {
      var p :| p in publishers && p.publisherName == name && p.publisherId != publisherId;
      var k :| 0 <= k < |publishers| && publishers[k] == p;
    }
    if NameHeldByOther(publishers, name, publisherId) {
      var k :| 0 <= k < |publishers| && publishers[k].publisherName == name && publishers[k].publisherId != publisherId;
      assert publishers[k] in publishers;
    }
  }

  /** Overwriting the row found by key replaces that publisher and no other. */
  lemma OverwritePublisher(publishers: seq<Publisher>, publisherId: int, row: Publisher)
    requires PublishersOk(publishers) && FindPublisher(publishers, publisherId).Some?
    ensures var s := publishers[FindPublisher(publishers, publisherId).value := row];
      |s| == |publishers| &&
      forall k :: 0 <= k < |publishers| ==> s[k] == if publishers[k].publisherId == publisherId then row else publishers[k]
  {
    var i := FindPublisher(publishers, publisherId).value;
    forall k | 0 <= k < |publishers| && k != i
      ensures publishers[k].publisherId != publisherId
    {
    }
  }
}
