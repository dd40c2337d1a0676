/** CmsAuthorServices: the author list, the two lookups by perma-name, the
    upsert and its perma-name guard. Unlike the other services, the upsert
    finds the row it replaces by (PermaName, OwnerId), not by Id. */
module AuthorServices {
  import opened Seqs
  import opened Models
  import opened Pagination
  import opened Data

  /** An author's Counts: g.Select(g => g.Culture == culture).Count()
      counts the projections, so every article of the author is counted,
      in every culture. */
  function ArticlesOfAuthor(articles: seq<Article>, id: string): (n: nat)
    ensures n <= |articles|
    ensures n == 0 <==> forall a :: a in articles ==> a.authorId != id
    ensures n == |set i | 0 <= i < |articles| && articles[i].authorId == id|
  {
    var names := (a: Article) => a.authorId == id;
    CountIsPositions(articles, names);
    assert Positions(articles, names) == set i | 0 <= i < |articles| && articles[i].authorId == id;
    Count(articles, names)
  }

  /** The AuthorViewModel projection: every field but DisplayOrder, which
      keeps its default 0, plus the article count. */
  function AuthorViewOf(articles: seq<Article>, au: Author): (v: AuthorView)
    ensures v.author.id == au.id && v.author.permaName == au.permaName && v.author.name == au.name
    ensures v.author.ownerId == au.ownerId && v.author.isDeleted == au.isDeleted
    ensures v.author.displayOrder == 0 && v.author.(displayOrder := au.displayOrder) == au
    ensures v.counts == ArticlesOfAuthor(articles, au.id)
  {
    AuthorView(au.(displayOrder := 0), ArticlesOfAuthor(articles, au.id))
  }

  /** The list's where clause and keyword: owned by the tenant, not deleted,
      and (for a non-empty keyword) a Name containing it. */
  predicate Listed(au: Author, ownerId: string, keyword: string)
  {
    au.ownerId == ownerId && !au.isDeleted && MatchesKeyword(au.name, keyword)
  }

  /** The rows GetAuthors pages over, in store order: exactly the views of
      the listed authors. */
  function AuthorRows(s: Store, ownerId: string, keyword: string): (r: seq<AuthorView>)
    ensures |r| <= |s.author|
    ensures forall au :: au in s.author && Listed(au, ownerId, keyword) ==> AuthorViewOf(s.articles, au) in r
    ensures forall v :: v in r ==> exists au :: au in s.author && Listed(au, ownerId, keyword) && v == AuthorViewOf(s.articles, au)
  {
    var live := Where(s.author, (au: Author) => au.ownerId == ownerId && !au.isDeleted);
    var items := Select(live, (au: Author) => AuthorViewOf(s.articles, au));
    if keyword == "" then items
    else Where(items, (v: AuthorView) => Contains(v.author.name, keyword))
  }

  /** The list's total: one row per listed author, counted by position in the table. */
  lemma AuthorRowsCount(s: Store, ownerId: string, keyword: string)
    ensures |AuthorRows(s, ownerId, keyword)| == |set i | 0 <= i < |s.author| && Listed(s.author[i], ownerId, keyword)|
  {
    var live := (au: Author) => au.ownerId == ownerId && !au.isDeleted;
    var view := (au: Author) => AuthorViewOf(s.articles, au);
    var named := (v: AuthorView) => Contains(v.author.name, keyword);
    var listed := (au: Author) => Listed(au, ownerId, keyword);
    if keyword == "" {
      SelectWhereLength(s.author, live, view, listed);
    } else {
      WhereSelectWhereLength(s.author, live, view, named, listed);
    }
    assert Positions(s.author, listed) == set i | 0 <= i < |s.author| && Listed(s.author[i], ownerId, keyword);
  }

  /** GetAuthors: one page of the owner's live authors, with the total count
      and the page count. The culture argument does not change the counts. */
  function GetAuthors(s: Store, ownerId: string, keyword: string, culture: string, currentPage: int, itemsPerPage: int)
    : (r: PaginationModel<AuthorView>)
    requires |AuthorRows(s, ownerId, keyword)| > 0 ==> itemsPerPage != 0
    ensures r.errors == [] && r.currentPage == currentPage && r.itemsPerPage == itemsPerPage
    ensures r.totalItems == |AuthorRows(s, ownerId, keyword)|
    ensures r.items == PageSlice(AuthorRows(s, ownerId, keyword), currentPage, itemsPerPage)
    ensures r.totalItems == 0 ==> r.totalPages == 0 && r.items == []
    ensures r.totalItems > 0 && itemsPerPage > 0 ==>
      r.totalPages >= 1 && (r.totalPages - 1) * itemsPerPage <= r.totalItems < r.totalPages * itemsPerPage
    ensures itemsPerPage > 0 ==> |r.items| <= itemsPerPage
    ensures forall v :: v in r.items ==> v in AuthorRows(s, ownerId, keyword)
  {
    var rows := AuthorRows(s, ownerId, keyword);
    var r := Paginate(rows, currentPage, itemsPerPage);
    assert forall v :: v in r.items ==> v in rows;
    r
  }

  /** Every listed item is a live author of the owner whose Name passes the keyword. */
  lemma ListedAuthorsAreLive(s: Store, ownerId: string, keyword: string, culture: string, currentPage: int, itemsPerPage: int)
    requires |AuthorRows(s, ownerId, keyword)| > 0 ==> itemsPerPage != 0
    ensures forall v :: v in GetAuthors(s, ownerId, keyword, culture, currentPage, itemsPerPage).items ==>
      v.author.ownerId == ownerId && !v.author.isDeleted && MatchesKeyword(v.author.name, keyword) &&
      v.author in Zeroed(s.author) && v.counts == ArticlesOfAuthor(s.articles, v.author.id)
  {
    var items := GetAuthors(s, ownerId, keyword, culture, currentPage, itemsPerPage).items;
    forall v | v in items
      ensures v.author.ownerId == ownerId && !v.author.isDeleted && MatchesKeyword(v.author.name, keyword)
      ensures v.author in Zeroed(s.author) && v.counts == ArticlesOfAuthor(s.articles, v.author.id)
    {
      var au :| au in s.author && Listed(au, ownerId, keyword) && v == AuthorViewOf(s.articles, au);
      ZeroedHas(s.author, au);
    }
  }

  /** The authors as the projection shows them, DisplayOrder reset. */
  function Zeroed(authors: seq<Author>): (r: seq<Author>)
    ensures |r| == |authors|
    ensures forall i :: 0 <= i < |authors| ==> r[i] == authors[i].(displayOrder := 0)
  {
    if |authors| == 0 then [] else [authors[0].(displayOrder := 0)] + Zeroed(authors[1..])
  }

  lemma ZeroedHas(authors: seq<Author>, au: Author)
    requires au in authors
    ensures au.(displayOrder := 0) in Zeroed(authors)
  {
    var i :| 0 <= i < |authors| && authors[i] == au;
    assert Zeroed(authors)[i] == au.(displayOrder := 0);
  }

  /** The where clause of both lookups. */
  predicate LiveWithPermaName(au: Author, ownerId: string, permaName: string)
  {
    au.ownerId == ownerId && au.permaName == permaName && !au.isDeleted
  }

  /** GetAuthorByPermaName: the first live author of the owner with that
      perma-name, or null. */
  function GetAuthorByPermaName(s: Store, ownerId: string, permaName: string, culture: string): (r: Option<AuthorView>)
    ensures r.None? <==> forall au :: au in s.author ==> !LiveWithPermaName(au, ownerId, permaName)
    ensures r.Some? ==> exists au :: au in s.author && LiveWithPermaName(au, ownerId, permaName) && r.value == AuthorViewOf(s.articles, au)
  {
    match FirstOrDefault(s.author, (au: Author) => LiveWithPermaName(au, ownerId, permaName))
    case None => None
    case Some(au) => Some(AuthorViewOf(s.articles, au))
  }

  /** GetAuthorForByPermaNameAdmin: the same query as the public lookup;
      in particular it does not return deleted authors. */
  function GetAuthorForByPermaNameAdmin(s: Store, ownerId: string, permaName: string, culture: string): (r: Option<AuthorView>)
    ensures r.None? <==> forall au :: au in s.author ==> !LiveWithPermaName(au, ownerId, permaName)
    ensures r.Some? ==> exists au :: au in s.author && LiveWithPermaName(au, ownerId, permaName) && r.value == AuthorViewOf(s.articles, au)
  {
    var found := FirstOrDefault(s.author, (au: Author) => LiveWithPermaName(au, ownerId, permaName));
    if found.None? then None else Some(AuthorViewOf(s.articles, found.value))
  }

  /** A deleted author is found by neither lookup once it is the only row
      with its owner and perma-name. */
  lemma DeletedAuthorIsHidden(s: Store, au: Author, culture: string)
    requires au in s.author && au.isDeleted
    requires forall b :: b in s.author && b.ownerId == au.ownerId && b.permaName == au.permaName ==> b == au
    ensures GetAuthorByPermaName(s, au.ownerId, au.permaName, culture).None?
    ensures GetAuthorForByPermaNameAdmin(s, au.ownerId, au.permaName, culture).None?
  {
  }

  /** The first row with the item's own perma-name and owner: the row the
      upsert treats as the original. */
  function OriginalAuthor(authors: seq<Author>, item: Author): (r: Option<Author>)
    ensures r.None? <==> forall au :: au in authors ==> !(au.permaName == item.permaName && au.ownerId == item.ownerId)
    ensures r.Some? ==> r.value in authors && r.value.permaName == item.permaName && r.value.ownerId == item.ownerId
  {
    FirstOrDefault(authors, (au: Author) => au.permaName == item.permaName && au.ownerId == item.ownerId)
  }

  /** IsUniqueAuthorPermaName(ownerId, permaName): no row has this
      perma-name under this owner. */
  function IsUniqueAuthorPermaName(authors: seq<Author>, ownerId: string, permaName: string): (r: bool)
    ensures r <==> forall au :: au in authors ==> !(au.permaName == permaName && au.ownerId == ownerId)
  {
    FirstOrDefault(authors, (au: Author) => au.permaName == permaName && au.ownerId == ownerId).None?
  }

  /** On the insert path the guard, called in the right order, could never
      fail: no row has the item's perma-name and owner, or there would have
      been an original. Only the swapped call can reject there. */
  lemma {:induction false} InsertGuardInOrderAlwaysPasses(authors: seq<Author>, item: Author)
    requires OriginalAuthor(authors, item).None?
    ensures IsUniqueAuthorPermaName(authors, item.ownerId, item.permaName)
  {
    forall au | au in authors
      ensures !(au.permaName == item.permaName && au.ownerId == item.ownerId)
    {
    }
  }

  /** UpsertAuthorAsync. `now` is DateTime.Now; `saveFails` says whether
      SaveChangesAsync throws for reasons outside the model, and
      `failureMessage` is the exception's message. The store also throws
      when the Add would duplicate the Id key, or when the Update names an
      Id no row has. */
  method UpsertAuthor(db: CmsDbContext, item: Author, now: DateTime, saveFails: bool, failureMessage: string)
    returns (response: UpsertResponseModel<Author>)
    requires db.Valid()
    modifies db
    ensures db.Valid()
    ensures db.articles == old(db.articles) && db.channels == old(db.channels)
    ensures db.categories == old(db.categories) && db.subCategories == old(db.subCategories)
    ensures OriginalAuthor(old(db.author), item).None? ==>
      var stamped := item.(created := now, modified := now);
      if IsUniqueAuthorPermaName(old(db.author), item.permaName, item.ownerId) then
        Written(response, stamped, saveFails || FindBy(old(db.author), AuthorKey, item.id).Some?, failureMessage,
                old(db.author), db.author, old(db.author) + [stamped])
      else
        Rejected(response, [NotUnique], stamped, old(db.author), db.author)
    ensures OriginalAuthor(old(db.author), item).Some? ==>
      var stamped := item.(modified := now);
      Written(response, stamped, saveFails || FindBy(old(db.author), AuthorKey, item.id).None?, failureMessage,
              old(db.author), db.author, ReplaceBy(old(db.author), AuthorKey, stamped))
  {
    var isValid := true;
    var responseStatus := Success;
    var errors, written := WriteAuthor(db, item, now, saveFails, failureMessage);
    isValid := errors == [];

    if !isValid {
      responseStatus := BadRequest;
    }
    response := UpsertResponseModel(responseStatus, errors, written);
  }

  /** The lookup, stamping, guard and save of the upsert. `written` is the
      item as stamped, which is what the response echoes. */
  method WriteAuthor(db: CmsDbContext, item: Author, now: DateTime, saveFails: bool, failureMessage: string)
    returns (errors: seq<ErrorModel>, written: Author)
    requires db.Valid()
    modifies db
    ensures db.Valid()
    ensures db.articles == old(db.articles) && db.channels == old(db.channels)
    ensures db.categories == old(db.categories) && db.subCategories == old(db.subCategories)
    ensures OriginalAuthor(old(db.author), item).None? ==>
      written == item.(created := now, modified := now) &&
      if IsUniqueAuthorPermaName(old(db.author), item.permaName, item.ownerId) then
        Stored(errors, saveFails || FindBy(old(db.author), AuthorKey, item.id).Some?, failureMessage,
               old(db.author), db.author, old(db.author) + [written])
      else
        errors == [NotUnique] && db.author == old(db.author)
    ensures OriginalAuthor(old(db.author), item).Some? ==>
      written == item.(modified := now) &&
      Stored(errors, saveFails || FindBy(old(db.author), AuthorKey, item.id).None?, failureMessage,
             old(db.author), db.author, ReplaceBy(old(db.author), AuthorKey, written))
  {
    var original := OriginalAuthor(db.author, item);
    if original.None? {
      written := item.(created := now, modified := now);
      if IsUniqueAuthorPermaName(db.author, written.permaName, written.ownerId) {
        errors := SaveAuthor(db, written, true, saveFails, failureMessage);
      } else {
        errors := [NotUnique];
      }
    } else {
      written := item.(modified := now);
      if written.permaName != original.value.permaName {
        // The original was found by this very perma-name.
        assert false;
      } else {
        errors := SaveAuthor(db, written, false, saveFails, failureMessage);
      }
    }
  }

  /** Author.Add or Author.Update followed by SaveChangesAsync inside its
      try/catch. Add throws on an Id already present, Update on an Id not
      present; a throwing save leaves the table as it was. */
  method SaveAuthor(db: CmsDbContext, item: Author, insert: bool, saveFails: bool, failureMessage: string)
    returns (failure: seq<ErrorModel>)
    requires db.Valid()
    modifies db
    ensures db.Valid()
    ensures db.articles == old(db.articles) && db.channels == old(db.channels)
    ensures db.categories == old(db.categories) && db.subCategories == old(db.subCategories)
    ensures var fails := saveFails || (insert <==> FindBy(old(db.author), AuthorKey, item.id).Some?);
      fails ==> failure == [StoreFault(failureMessage)] && db.author == old(db.author)
    ensures var fails := saveFails || (insert <==> FindBy(old(db.author), AuthorKey, item.id).Some?);
      !fails ==> failure == []
    ensures var fails := saveFails || (insert <==> FindBy(old(db.author), AuthorKey, item.id).Some?);
      !fails ==> db.author == if insert then old(db.author) + [item] else ReplaceBy(old(db.author), AuthorKey, item)
  {
    var present := FindBy(db.author, AuthorKey, item.id).Some?;
    if saveFails || (insert <==> present) {
      failure := [StoreFault(failureMessage)];
    } else if insert {
      AppendUnique(db.author, AuthorKey, item);
      db.author := db.author + [item];
      failure := [];
    } else {
      ReplaceUnique(db.author, AuthorKey, item);
      db.author := ReplaceBy(db.author, AuthorKey, item);
      failure := [];
    }
  }

  /** After a successful insert the public lookup finds the new author
      (when it is not deleted): it is the only row with its perma-name and owner. */
  lemma {:induction false} InsertedAuthorIsFound(s: Store, item: Author, culture: string)
    requires OriginalAuthor(s.author, item).None?
    requires !item.isDeleted
    ensures GetAuthorByPermaName(s.(author := s.author + [item]), item.ownerId, item.permaName, culture)
            == Some(AuthorViewOf(s.articles, item))
  {
    var t := s.(author := s.author + [item]);
    var r := GetAuthorByPermaName(t, item.ownerId, item.permaName, culture);
    assert item in t.author;
    assert r.Some?;
    var au :| au in t.author && LiveWithPermaName(au, item.ownerId, item.permaName) && r.value == AuthorViewOf(s.articles, au);
    assert au !in s.author;
    assert au == item;
  }

  /** An update writes the row whose Id the item carries, which need not be
      the original: here, with two authors in the table, it gives the second
      one the first one's perma-name, and the table ends with two authors
      sharing owner and perma-name. */
  method UpdateOverwritesAnotherAuthor() returns (db: CmsDbContext)
    ensures fresh(db)
    ensures |db.author| == 2
    ensures db.author[0].ownerId == db.author[1].ownerId && db.author[0].permaName == db.author[1].permaName
  {
    db := new CmsDbContext();
    var row1 := Author("a1", "jane", "Jane", "", "", "", 0, "tenant", 10, 10, false, true);
    var row2 := row1.(id := "a2", permaName := "john", name := "John");
    var third := row2.(permaName := "jane");
    db.author := [row1, row2];
    assert db.Valid();
    assert OriginalAuthor(db.author, third) == Some(row1) && FindBy(db.author, AuthorKey, third.id) == Some(row2);
    var r := UpsertAuthor(db, third, 30, false, "");
    assert db.author == ReplaceBy([row1, row2], AuthorKey, third.(modified := 30));
    ReplaceByAt([row1, row2], AuthorKey, third.(modified := 30));
    assert db.author[0] == row1 && db.author[1] == third.(modified := 30);
  }
}
