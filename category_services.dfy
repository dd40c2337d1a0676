/** CmsCategoryServices: the two category lists of a channel, the four
    single-category lookups, the category upsert and its perma-name guard.
    Every query inner-joins a category to the channel its ChannelId names. */
module CategoryServices {
  import opened Seqs
  import opened Models
  import opened Pagination
  import opened Data

  /** How many articles name category `id`, in every culture
      (g.Select(g => g.Culture == culture).Count() counts projections). */
  function ArticlesOfCategory(articles: seq<Article>, id: string): (n: nat)
    ensures n <= |articles|
    ensures n == 0 <==> forall a :: a in articles ==> a.categoryId != id
    ensures n == |set i | 0 <= i < |articles| && articles[i].categoryId == id|
  {
    var names := (a: Article) => a.categoryId == id;
    CountIsPositions(articles, names);
    assert Positions(articles, names) == set i | 0 <= i < |articles| && articles[i].categoryId == id;
    Count(articles, names)
  }

  /** The channel row a category joins to (join ch on c.ChannelId equals ch.Id). */
  function ChannelOf(s: Store, c: Category): Option<Channel>
  {
    FindBy(s.channels, ChannelKey, c.channelId)
  }

  /** What a category query returns for a joined pair. */
  function CategoryView(s: Store, c: Category, ch: Channel, culture: string): (v: ArticleCategoryView)
  {
    ArticleCategoryView(c, ch.name, ch.permaName, culture, ArticlesOfCategory(s.articles, c.id))
  }

  /** The channel a list is asked for: by perma-name or by id. */
  datatype ChannelFilter = ChannelPermaIs(permaName: string) | ChannelIdIs(id: string)

  predicate OnChannel(f: ChannelFilter, ch: Channel)
  {
    match f
    case ChannelPermaIs(p) => ch.permaName == p
    case ChannelIdIs(id) => ch.id == id
  }

  /** A list row: an owner's category, deleted or not, joined to the
      channel asked for, passing the keyword, with its all-culture count. */
  ghost predicate IsCategoryRow(s: Store, ownerId: string, f: ChannelFilter, keyword: string, culture: string, v: ArticleCategoryView)
  {
    v.category in s.categories && v.category.ownerId == ownerId &&
    ChannelOf(s, v.category).Some? && OnChannel(f, ChannelOf(s, v.category).value) &&
    MatchesKeyword(v.category.title, keyword) &&
    v == CategoryView(s, v.category, ChannelOf(s, v.category).value, culture)
  }

  /** The rows a list builds before paging: the owner's categories, deleted
      ones included, whose channel row exists and is the one asked for, in
      store order; a non-empty keyword keeps those whose Title contains it.
      That Where tests the view's category, which is the joined category
      itself, so it is applied together with the join's own filter. */
  function CategoryRows(s: Store, ownerId: string, f: ChannelFilter, keyword: string, culture: string)
    : (r: seq<ArticleCategoryView>)
    ensures |r| <= |s.categories|
    ensures forall v :: v in r <==> IsCategoryRow(s, ownerId, f, keyword, culture, v)
  {
    JoinWhere(s.categories, (c: Category) => ChannelOf(s, c),
              (c: Category, ch: Channel) => c.ownerId == ownerId && OnChannel(f, ch) && MatchesKeyword(c.title, keyword),
              (c: Category, ch: Channel) => CategoryView(s, c, ch, culture))
  }

  /** A list's total: one row per owned category that joins to the channel
      asked for and passes the keyword, counted by position in the table. */
  lemma CategoryRowsCount(s: Store, ownerId: string, f: ChannelFilter, keyword: string, culture: string)
    ensures |CategoryRows(s, ownerId, f, keyword, culture)| ==
      |set i | 0 <= i < |s.categories| && s.categories[i].ownerId == ownerId && ChannelOf(s, s.categories[i]).Some? &&
               OnChannel(f, ChannelOf(s, s.categories[i]).value) && MatchesKeyword(s.categories[i].title, keyword)|
  {
    var join := (c: Category) => ChannelOf(s, c);
    var keep := (c: Category, ch: Channel) => c.ownerId == ownerId && OnChannel(f, ch) && MatchesKeyword(c.title, keyword);
    CountIsPositions(s.categories, Joins(join, keep));
    assert Positions(s.categories, Joins(join, keep)) ==
      set i | 0 <= i < |s.categories| && s.categories[i].ownerId == ownerId && ChannelOf(s, s.categories[i]).Some? &&
              OnChannel(f, ChannelOf(s, s.categories[i]).value) && MatchesKeyword(s.categories[i].title, keyword);
  }

  /** The paging both lists share. */
  function CategoryPage(s: Store, ownerId: string, f: ChannelFilter, keyword: string, culture: string,
                        currentPage: int, itemsPerPage: int)
    : (r: PaginationModel<ArticleCategoryView>)
    requires |CategoryRows(s, ownerId, f, keyword, culture)| > 0 ==> itemsPerPage != 0
    ensures r.errors == [] && r.currentPage == currentPage && r.itemsPerPage == itemsPerPage
    ensures r.totalItems == |CategoryRows(s, ownerId, f, keyword, culture)|
    ensures r.items == PageSlice(CategoryRows(s, ownerId, f, keyword, culture), currentPage, itemsPerPage)
    ensures r.totalItems == 0 ==> r.totalPages == 0 && r.items == []
    ensures r.totalPages == TotalPages(r.totalItems, itemsPerPage)
    ensures itemsPerPage > 0 ==> |r.items| <= itemsPerPage
    ensures forall v :: v in r.items ==> v in CategoryRows(s, ownerId, f, keyword, culture)
  {
    var rows := CategoryRows(s, ownerId, f, keyword, culture);
    Paginate(rows, currentPage, itemsPerPage)
  }

  /** GetCategoriesByChannelPermaName. */
  function GetCategoriesByChannelPermaName(s: Store, ownerId: string, channelPermaName: string, keyword: string,
                                           culture: string, currentPage: int, itemsPerPage: int)
    : (r: PaginationModel<ArticleCategoryView>)
    requires |CategoryRows(s, ownerId, ChannelPermaIs(channelPermaName), keyword, culture)| > 0 ==> itemsPerPage != 0
    ensures r.totalItems == |CategoryRows(s, ownerId, ChannelPermaIs(channelPermaName), keyword, culture)|
    ensures r.items == PageSlice(CategoryRows(s, ownerId, ChannelPermaIs(channelPermaName), keyword, culture), currentPage, itemsPerPage)
    ensures r.totalItems == 0 ==> r.totalPages == 0 && r.items == []
    ensures forall v :: v in r.items ==>
      v.category in s.categories && v.category.ownerId == ownerId &&
      ChannelOf(s, v.category).Some? && ChannelOf(s, v.category).value.permaName == channelPermaName &&
      MatchesKeyword(v.category.title, keyword) && v.culture == culture &&
      v.count == ArticlesOfCategory(s.articles, v.category.id)
  {
    CategoryPage(s, ownerId, ChannelPermaIs(channelPermaName), keyword, culture, currentPage, itemsPerPage)
  }

  /** GetCategoriesByChannelId. */
  function GetCategoriesByChannelId(s: Store, ownerId: string, channelId: string, keyword: string,
                                    culture: string, currentPage: int, itemsPerPage: int)
    : (r: PaginationModel<ArticleCategoryView>)
    requires |CategoryRows(s, ownerId, ChannelIdIs(channelId), keyword, culture)| > 0 ==> itemsPerPage != 0
    ensures r.totalItems == |CategoryRows(s, ownerId, ChannelIdIs(channelId), keyword, culture)|
    ensures r.items == PageSlice(CategoryRows(s, ownerId, ChannelIdIs(channelId), keyword, culture), currentPage, itemsPerPage)
    ensures r.totalItems == 0 ==> r.totalPages == 0 && r.items == []
    ensures forall v :: v in r.items ==>
      v.category in s.categories && v.category.ownerId == ownerId &&
      v.category.channelId == channelId && ChannelOf(s, v.category).Some? &&
      MatchesKeyword(v.category.title, keyword) && v.culture == culture &&
      v.count == ArticlesOfCategory(s.articles, v.category.id)
  {
    CategoryPage(s, ownerId, ChannelIdIs(channelId), keyword, culture, currentPage, itemsPerPage)
  }

  /** The lookups' filter: the owner, the category (by perma-name or id),
      the channel, and, for the public lookups, not deleted. */
  datatype CategoryFilter = CategoryPermaIs(permaName: string) | CategoryIdIs(id: string)

  predicate IsCategory(f: CategoryFilter, c: Category)
  {
    match f
    case CategoryPermaIs(p) => c.permaName == p
    case CategoryIdIs(id) => c.id == id
  }

  ghost predicate Matches(s: Store, ownerId: string, cf: CategoryFilter, chf: ChannelFilter, withDeleted: bool, c: Category)
  {
    c.ownerId == ownerId && IsCategory(cf, c) && (withDeleted || !c.isDeleted) &&
    ChannelOf(s, c).Some? && OnChannel(chf, ChannelOf(s, c).value)
  }

  /** The first joined category that passes the filter. */
  function FindCategory(s: Store, ownerId: string, cf: CategoryFilter, chf: ChannelFilter, withDeleted: bool, culture: string)
    : (r: Option<ArticleCategoryView>)
    ensures r.None? <==> forall c :: c in s.categories ==> !Matches(s, ownerId, cf, chf, withDeleted, c)
    ensures r.Some? ==> r.value.category in s.categories && Matches(s, ownerId, cf, chf, withDeleted, r.value.category) &&
                        r.value == CategoryView(s, r.value.category, ChannelOf(s, r.value.category).value, culture)
  {
    var rows := JoinWhere(s.categories, (c: Category) => ChannelOf(s, c),
                          (c: Category, ch: Channel) =>
                            c.ownerId == ownerId && IsCategory(cf, c) && (withDeleted || !c.isDeleted) && OnChannel(chf, ch),
                          (c: Category, ch: Channel) => CategoryView(s, c, ch, culture));
    First(rows)
  }

  /** GetCategoryByPermaName: not deleted. */
  function GetCategoryByPermaName(s: Store, ownerId: string, permaName: string, channelPermaName: string, culture: string)
    : (r: Option<ArticleCategoryView>)
    ensures r.None? <==> forall c :: c in s.categories ==>
      !Matches(s, ownerId, CategoryPermaIs(permaName), ChannelPermaIs(channelPermaName), false, c)
    ensures r.Some? ==> (!r.value.category.isDeleted && r.value.category.permaName == permaName &&
      r.value.category.ownerId == ownerId && r.value.channelPermaName == channelPermaName && r.value.culture == culture)
  {
    FindCategory(s, ownerId, CategoryPermaIs(permaName), ChannelPermaIs(channelPermaName), false, culture)
  }

  /** GetCategoryByPermaNameAdmin: deleted categories included. */
  function GetCategoryByPermaNameAdmin(s: Store, ownerId: string, permaName: string, channelPermaName: string, culture: string)
    : (r: Option<ArticleCategoryView>)
    ensures r.None? <==> forall c :: c in s.categories ==>
      !Matches(s, ownerId, CategoryPermaIs(permaName), ChannelPermaIs(channelPermaName), true, c)
    ensures r.Some? ==> (r.value.category.permaName == permaName &&
      r.value.category.ownerId == ownerId && r.value.channelPermaName == channelPermaName && r.value.culture == culture)
  {
    FindCategory(s, ownerId, CategoryPermaIs(permaName), ChannelPermaIs(channelPermaName), true, culture)
  }

  /** GetCategoryById: not deleted. */
  function GetCategoryById(s: Store, ownerId: string, id: string, channelId: string, culture: string)
    : (r: Option<ArticleCategoryView>)
    ensures r.None? <==> forall c :: c in s.categories ==>
      !Matches(s, ownerId, CategoryIdIs(id), ChannelIdIs(channelId), false, c)
    ensures r.Some? ==> (!r.value.category.isDeleted && r.value.category.id == id &&
      r.value.category.ownerId == ownerId && r.value.category.channelId == channelId && r.value.culture == culture)
  {
    FindCategory(s, ownerId, CategoryIdIs(id), ChannelIdIs(channelId), false, culture)
  }

  /** GetCategoryByIdAdmin: deleted categories included. */
  function GetCategoryByIdAdmin(s: Store, ownerId: string, id: string, channelId: string, culture: string)
    : (r: Option<ArticleCategoryView>)
    ensures r.None? <==> forall c :: c in s.categories ==>
      !Matches(s, ownerId, CategoryIdIs(id), ChannelIdIs(channelId), true, c)
    ensures r.Some? ==> (r.value.category.id == id &&
      r.value.category.ownerId == ownerId && r.value.category.channelId == channelId && r.value.culture == culture)
  {
    FindCategory(s, ownerId, CategoryIdIs(id), ChannelIdIs(channelId), true, culture)
  }

  /** A category whose channel exists is found by id (when not deleted) and
      by the admin lookup (always), and, the ids being unique, it is that
      very category that comes back. */
  lemma {:induction false} LookupByIdFindsTheRow(s: Store, c: Category, culture: string)
    requires UniqueBy(s.categories, CategoryKey)
    requires c in s.categories && ChannelOf(s, c).Some?
    ensures GetCategoryByIdAdmin(s, c.ownerId, c.id, c.channelId, culture) == Some(CategoryView(s, c, ChannelOf(s, c).value, culture))
    ensures !c.isDeleted ==> GetCategoryById(s, c.ownerId, c.id, c.channelId, culture) == Some(CategoryView(s, c, ChannelOf(s, c).value, culture))
    ensures c.isDeleted ==> GetCategoryById(s, c.ownerId, c.id, c.channelId, culture).None?
  {
    assert Matches(s, c.ownerId, CategoryIdIs(c.id), ChannelIdIs(c.channelId), true, c);
    var admin := GetCategoryByIdAdmin(s, c.ownerId, c.id, c.channelId, culture);
    UniqueKeyEq(s.categories, CategoryKey, admin.value.category, c);
    if !c.isDeleted {
      assert Matches(s, c.ownerId, CategoryIdIs(c.id), ChannelIdIs(c.channelId), false, c);
      var pub := GetCategoryById(s, c.ownerId, c.id, c.channelId, culture);
      UniqueKeyEq(s.categories, CategoryKey, pub.value.category, c);
    } else {
      forall d | d in s.categories && Matches(s, c.ownerId, CategoryIdIs(c.id), ChannelIdIs(c.channelId), false, d)
        ensures false
      {
        UniqueKeyEq(s.categories, CategoryKey, d, c);
      }
    }
  }

  /** IsUniqueArticleCategoryPermaName(ownerId, permaName, channelId): no
      category has this owner, perma-name and channel. */
  function IsUniqueArticleCategoryPermaName(categories: seq<Category>, ownerId: string, permaName: string, channelId: string)
    : (r: bool)
    ensures r <==> forall c :: c in categories ==> !(c.permaName == permaName && c.ownerId == ownerId && c.channelId == channelId)
  {
    FirstOrDefault(categories, (c: Category) => c.permaName == permaName && c.ownerId == ownerId && c.channelId == channelId).None?
  }

  /** UpsertArticleCategoryAsync. An unknown ChannelId is the one error and
      nothing is written. Otherwise an item whose Id is not in the table is
      inserted and an existing one replaced, the guard (arguments swapped)
      running on insert and on a changed perma-name. No timestamp is
      assigned on any path: the echoed item is the input. */
  method UpsertArticleCategory(db: CmsDbContext, item: Category, saveFails: bool, failureMessage: string)
    returns (response: UpsertResponseModel<Category>)
    requires db.Valid()
    modifies db
    ensures db.Valid()
    ensures db.articles == old(db.articles) && db.channels == old(db.channels)
    ensures db.subCategories == old(db.subCategories) && db.author == old(db.author)
    ensures response.item == item
    ensures FindBy(old(db.channels), ChannelKey, item.channelId).None? ==>
      Rejected(response, [ChannelNotFound], item, old(db.categories), db.categories)
    ensures FindBy(old(db.channels), ChannelKey, item.channelId).Some? && FindBy(old(db.categories), CategoryKey, item.id).None? ==>
      if IsUniqueArticleCategoryPermaName(old(db.categories), item.permaName, item.ownerId, item.channelId) then
        Written(response, item, saveFails, failureMessage, old(db.categories), db.categories, old(db.categories) + [item])
      else
        Rejected(response, [NotUnique], item, old(db.categories), db.categories)
    ensures FindBy(old(db.channels), ChannelKey, item.channelId).Some? && FindBy(old(db.categories), CategoryKey, item.id).Some? ==>
      if item.permaName != FindBy(old(db.categories), CategoryKey, item.id).value.permaName &&
         !IsUniqueArticleCategoryPermaName(old(db.categories), item.permaName, item.ownerId, item.channelId) then
        Rejected(response, [NotUnique], item, old(db.categories), db.categories)
      else
        Written(response, item, saveFails, failureMessage, old(db.categories), db.categories,
                ReplaceBy(old(db.categories), CategoryKey, item))
  {
    var isValid := true;
    var responseStatus := Success;
    var errors: seq<ErrorModel> := [];

    var channel := FindBy(db.channels, ChannelKey, item.channelId);
    if channel.None? {
      isValid := false;
      errors := errors + [ChannelNotFound];
    }

    if isValid {
      var failure := WriteCategory(db, item, saveFails, failureMessage);
      isValid := failure == [];
      errors := errors + failure;
    }

    if !isValid {
      responseStatus := BadRequest;
    }
    response := UpsertResponseModel(responseStatus, errors, item);
  }

  /** The part of the upsert past the channel check: insert an unknown Id
      when the guard passes, otherwise replace the row, the guard running
      only for a changed perma-name. */
  method WriteCategory(db: CmsDbContext, item: Category, saveFails: bool, failureMessage: string)
    returns (errors: seq<ErrorModel>)
    requires db.Valid()
    modifies db
    ensures db.Valid()
    ensures db.articles == old(db.articles) && db.channels == old(db.channels)
    ensures db.subCategories == old(db.subCategories) && db.author == old(db.author)
    ensures FindBy(old(db.categories), CategoryKey, item.id).None? ==>
      if IsUniqueArticleCategoryPermaName(old(db.categories), item.permaName, item.ownerId, item.channelId) then
        Stored(errors, saveFails, failureMessage, old(db.categories), db.categories, old(db.categories) + [item])
      else
        errors == [NotUnique] && db.categories == old(db.categories)
    ensures FindBy(old(db.categories), CategoryKey, item.id).Some? ==>
      if item.permaName != FindBy(old(db.categories), CategoryKey, item.id).value.permaName &&
         !IsUniqueArticleCategoryPermaName(old(db.categories), item.permaName, item.ownerId, item.channelId) then
        errors == [NotUnique] && db.categories == old(db.categories)
      else
        Stored(errors, saveFails, failureMessage, old(db.categories), db.categories,
               ReplaceBy(old(db.categories), CategoryKey, item))
  {
    var original := FindBy(db.categories, CategoryKey, item.id);
    if original.None? {
      if IsUniqueArticleCategoryPermaName(db.categories, item.permaName, item.ownerId, item.channelId) {
        errors := SaveCategory(db, item, true, saveFails, failureMessage);
      } else {
        errors := [NotUnique];
      }
    } else if item.permaName != original.value.permaName {
      if IsUniqueArticleCategoryPermaName(db.categories, item.permaName, item.ownerId, item.channelId) {
        errors := SaveCategory(db, item, false, saveFails, failureMessage);
      } else {
        errors := [NotUnique];
      }
    } else {
      errors := SaveCategory(db, item, false, saveFails, failureMessage);
    }
  }

  /** Categories.Add or Categories.Update followed by SaveChangesAsync
      inside its try/catch: a throwing save leaves the table as it was and
      yields the code-500 error with the exception message. */
  method SaveCategory(db: CmsDbContext, item: Category, insert: bool, saveFails: bool, failureMessage: string)
    returns (failure: seq<ErrorModel>)
    requires db.Valid()
    requires insert <==> FindBy(db.categories, CategoryKey, item.id).None?
    modifies db
    ensures db.Valid()
    ensures db.articles == old(db.articles) && db.channels == old(db.channels)
    ensures db.subCategories == old(db.subCategories) && db.author == old(db.author)
    ensures saveFails ==> failure == [StoreFault(failureMessage)] && db.categories == old(db.categories)
    ensures !saveFails ==> failure == []
    ensures !saveFails ==>
      db.categories == if insert then old(db.categories) + [item] else ReplaceBy(old(db.categories), CategoryKey, item)
  {
    if saveFails {
      failure := [StoreFault(failureMessage)];
    } else if insert {
      AppendUnique(db.categories, CategoryKey, item);
      db.categories := db.categories + [item];
      failure := [];
    } else {
      ReplaceUnique(db.categories, CategoryKey, item);
      db.categories := ReplaceBy(db.categories, CategoryKey, item);
      failure := [];
    }
  }

  /** A written category whose channel exists is what the admin lookup by
      id returns afterwards. */
  lemma WrittenCategoryIsFound(s: Store, item: Category, culture: string)
    requires UniqueBy(s.categories, CategoryKey)
    requires FindBy(s.channels, ChannelKey, item.channelId).Some?
    ensures FindBy(s.categories, CategoryKey, item.id).None? ==>
      var t := s.(categories := s.categories + [item]);
      GetCategoryByIdAdmin(t, item.ownerId, item.id, item.channelId, culture) == Some(CategoryView(t, item, ChannelOf(t, item).value, culture))
    ensures FindBy(s.categories, CategoryKey, item.id).Some? ==>
      var t := s.(categories := ReplaceBy(s.categories, CategoryKey, item));
      GetCategoryByIdAdmin(t, item.ownerId, item.id, item.channelId, culture) == Some(CategoryView(t, item, ChannelOf(t, item).value, culture))
  {
    if FindBy(s.categories, CategoryKey, item.id).None? {
      AppendUnique(s.categories, CategoryKey, item);
      LookupByIdFindsTheRow(s.(categories := s.categories + [item]), item, culture);
    } else {
      ReplaceUnique(s.categories, CategoryKey, item);
      LookupByIdFindsTheRow(s.(categories := ReplaceBy(s.categories, CategoryKey, item)), item, culture);
    }
  }
}
