/** CmsSubCategoryServices: the two sub-category lists, the four
    single-sub-category lookups, the upsert and its perma-name guard. Every
    query inner-joins a sub-category to its channel and its category. */
module SubCategoryServices {
  import opened Seqs
  import opened Models
  import opened Pagination
  import opened Data

  /** How many articles name sub-category `id`, in every culture
      (g.Select(g => g.Culture == culture).Count() counts projections). */
  function ArticlesOfSubCategory(articles: seq<Article>, id: string): (n: nat)
    ensures n <= |articles|
    ensures n == 0 <==> forall a :: a in articles ==> a.subCategoryId != id
    ensures n == |set i | 0 <= i < |articles| && articles[i].subCategoryId == id|
  {
    var names := (a: Article) => a.subCategoryId == id;
    CountIsPositions(articles, names);
    assert Positions(articles, names) == set i | 0 <= i < |articles| && articles[i].subCategoryId == id;
    Count(articles, names)
  }

  /** The channel and category rows a sub-category joins to, when both exist. */
  function ParentsOf(s: Store, sc: SubCategory): (r: Option<(Channel, Category)>)
    ensures r.Some? <==> FindBy(s.channels, ChannelKey, sc.channelId).Some? && FindBy(s.categories, CategoryKey, sc.categoryId).Some?
    ensures r.Some? ==> r.value.0.id == sc.channelId && r.value.1.id == sc.categoryId
  {
    var ch := FindBy(s.channels, ChannelKey, sc.channelId);
    var ca := FindBy(s.categories, CategoryKey, sc.categoryId);
    if ch.Some? && ca.Some? then Some((ch.value, ca.value)) else None
  }

  function SubCategoryView(s: Store, sc: SubCategory, p: (Channel, Category), culture: string): ArticleSubCategoryView
  {
    ArticleSubCategoryView(sc, p.0.name, p.0.permaName, p.1.name, p.1.permaName, culture,
                           ArticlesOfSubCategory(s.articles, sc.id))
  }

  /** How a query names a row: not at all, by perma-name or by id. */
  datatype Key = AnyKey | PermaIs(permaName: string) | IdIs(id: string)

  predicate KeyOk(k: Key, id: string, permaName: string)
  {
    match k
    case AnyKey => true
    case PermaIs(p) => permaName == p
    case IdIs(i) => id == i
  }

  /** A query's where clause: how it names the sub-category, its channel
      and its category, and whether it drops deleted sub-categories or
      deleted categories. */
  datatype Query = Query(subCategory: Key, channel: Key, category: Key, liveSubCategory: bool, liveCategory: bool)

  /** GetSubCategoriesByCaetgoryPermaName's clause: the parent category must
      not be deleted; the sub-category itself may be. */
  function ListByPermaName(channelPermaName: string, categoryPermaName: string): Query
  {
    Query(AnyKey, PermaIs(channelPermaName), PermaIs(categoryPermaName), false, true)
  }

  /** GetSubCategoriesByCaetgoryId's clause: the sub-category must not be deleted. */
  function ListById(channelId: string, categoryId: string): Query
  {
    Query(AnyKey, IdIs(channelId), IdIs(categoryId), true, false)
  }

  /** The where clause on a sub-category joined to its channel and category. */
  predicate Keeps(ownerId: string, q: Query, sc: SubCategory, p: (Channel, Category))
  {
    sc.ownerId == ownerId &&
    KeyOk(q.subCategory, sc.id, sc.permaName) &&
    KeyOk(q.channel, p.0.id, p.0.permaName) &&
    KeyOk(q.category, p.1.id, p.1.permaName) &&
    (q.liveSubCategory ==> !sc.isDeleted) &&
    (q.liveCategory ==> !p.1.isDeleted)
  }

  ghost predicate Selected(s: Store, ownerId: string, q: Query, sc: SubCategory)
  {
    ParentsOf(s, sc).Some? && Keeps(ownerId, q, sc, ParentsOf(s, sc).value)
  }

  ghost predicate IsRow(s: Store, ownerId: string, q: Query, culture: string, v: ArticleSubCategoryView)
  {
    v.subCategory in s.subCategories && Selected(s, ownerId, q, v.subCategory) &&
    v == SubCategoryView(s, v.subCategory, ParentsOf(s, v.subCategory).value, culture)
  }

  /** The joined, filtered and projected rows, in store order. The lists
      then keep, for a non-empty keyword, the rows whose Title contains it;
      that Where tests the view's sub-category, which is the joined row
      itself, so it is applied together with the join's own filter. The
      lookups pass no keyword. */
  function Rows(s: Store, ownerId: string, q: Query, keyword: string, culture: string): (r: seq<ArticleSubCategoryView>)
    ensures |r| <= |s.subCategories|
    ensures forall v :: v in r <==> IsRow(s, ownerId, q, culture, v) && MatchesKeyword(v.subCategory.title, keyword)
  {
    JoinWhere(s.subCategories, (sc: SubCategory) => ParentsOf(s, sc),
              (sc: SubCategory, p: (Channel, Category)) => Keeps(ownerId, q, sc, p) && MatchesKeyword(sc.title, keyword),
              (sc: SubCategory, p: (Channel, Category)) => SubCategoryView(s, sc, p, culture))
  }

  /** One row per selected sub-category whose Title passes the keyword,
      counted by position in the table. */
  lemma RowsCount(s: Store, ownerId: string, q: Query, keyword: string, culture: string)
    ensures |Rows(s, ownerId, q, keyword, culture)| ==
      |set i | 0 <= i < |s.subCategories| && Selected(s, ownerId, q, s.subCategories[i]) &&
               MatchesKeyword(s.subCategories[i].title, keyword)|
  {
    var join := (sc: SubCategory) => ParentsOf(s, sc);
    var keep := (sc: SubCategory, p: (Channel, Category)) => Keeps(ownerId, q, sc, p) && MatchesKeyword(sc.title, keyword);
    CountIsPositions(s.subCategories, Joins(join, keep));
    assert Positions(s.subCategories, Joins(join, keep)) ==
      set i | 0 <= i < |s.subCategories| && Selected(s, ownerId, q, s.subCategories[i]) &&
              MatchesKeyword(s.subCategories[i].title, keyword);
  }

  /** GetSubCategoriesByCaetgoryPermaName. */
  function GetSubCategoriesByCategoryPermaName(s: Store, ownerId: string, channelPermaName: string, categoryPermaName: string,
                                               keyword: string, culture: string, currentPage: int, itemsPerPage: int)
    : (r: PaginationModel<ArticleSubCategoryView>)
    requires |Rows(s, ownerId, ListByPermaName(channelPermaName, categoryPermaName), keyword, culture)| > 0 ==> itemsPerPage != 0
    ensures r.errors == [] && r.currentPage == currentPage && r.itemsPerPage == itemsPerPage
    ensures r.totalItems == |Rows(s, ownerId, ListByPermaName(channelPermaName, categoryPermaName), keyword, culture)|
    ensures r.items == PageSlice(Rows(s, ownerId, ListByPermaName(channelPermaName, categoryPermaName), keyword, culture), currentPage, itemsPerPage)
    ensures r.totalItems == 0 ==> r.totalPages == 0 && r.items == []
    ensures r.totalItems > 0 && itemsPerPage > 0 ==>
      r.totalPages >= 1 && (r.totalPages - 1) * itemsPerPage <= r.totalItems < r.totalPages * itemsPerPage
    ensures itemsPerPage > 0 ==> |r.items| <= itemsPerPage
    ensures forall v :: v in r.items ==> v in Rows(s, ownerId, ListByPermaName(channelPermaName, categoryPermaName), keyword, culture)
  {
    var rows := Rows(s, ownerId, ListByPermaName(channelPermaName, categoryPermaName), keyword, culture);
    var r := Paginate(rows, currentPage, itemsPerPage);
    assert forall v :: v in r.items ==> v in rows;
    r
  }

  /** A row selected by the perma-name query, field by field. */
  lemma PermaNameRow(s: Store, ownerId: string, channelPermaName: string, categoryPermaName: string,
                     culture: string, v: ArticleSubCategoryView)
    requires IsRow(s, ownerId, ListByPermaName(channelPermaName, categoryPermaName), culture, v)
    ensures v.subCategory in s.subCategories && v.subCategory.ownerId == ownerId &&
      v.channelPermaName == channelPermaName && v.categoryPermaName == categoryPermaName &&
      ParentsOf(s, v.subCategory).Some? && !ParentsOf(s, v.subCategory).value.1.isDeleted &&
      v.count == ArticlesOfSubCategory(s.articles, v.subCategory.id) && v.culture == culture
  {
    var q := ListByPermaName(channelPermaName, categoryPermaName);
    var p := ParentsOf(s, v.subCategory).value;
    assert KeyOk(q.channel, p.0.id, p.0.permaName) && KeyOk(q.category, p.1.id, p.1.permaName);
  }

  /** What a row of the list by perma-name is: an owner's sub-category whose
      channel and category have the given perma-names, whose category is
      not deleted, and whose Title passes the keyword. */
  lemma ListByPermaNameRows(s: Store, ownerId: string, channelPermaName: string, categoryPermaName: string,
                            keyword: string, culture: string)
    ensures forall v :: v in Rows(s, ownerId, ListByPermaName(channelPermaName, categoryPermaName), keyword, culture) ==>
      v.subCategory in s.subCategories && v.subCategory.ownerId == ownerId &&
      v.channelPermaName == channelPermaName && v.categoryPermaName == categoryPermaName &&
      ParentsOf(s, v.subCategory).Some? && !ParentsOf(s, v.subCategory).value.1.isDeleted &&
      MatchesKeyword(v.subCategory.title, keyword) &&
      v.count == ArticlesOfSubCategory(s.articles, v.subCategory.id) && v.culture == culture
  {
    forall v | v in Rows(s, ownerId, ListByPermaName(channelPermaName, categoryPermaName), keyword, culture) {
      PermaNameRow(s, ownerId, channelPermaName, categoryPermaName, culture, v);
    }
  }

  /** GetSubCategoriesByCaetgoryId. */
  function GetSubCategoriesByCategoryId(s: Store, ownerId: string, channelId: string, categoryId: string,
                                        keyword: string, culture: string, currentPage: int, itemsPerPage: int)
    : (r: PaginationModel<ArticleSubCategoryView>)
    requires |Rows(s, ownerId, ListById(channelId, categoryId), keyword, culture)| > 0 ==> itemsPerPage != 0
    ensures r.errors == [] && r.currentPage == currentPage && r.itemsPerPage == itemsPerPage
    ensures r.totalItems == |Rows(s, ownerId, ListById(channelId, categoryId), keyword, culture)|
    ensures r.items == PageSlice(Rows(s, ownerId, ListById(channelId, categoryId), keyword, culture), currentPage, itemsPerPage)
    ensures r.totalItems == 0 ==> r.totalPages == 0 && r.items == []
    ensures r.totalItems > 0 && itemsPerPage > 0 ==>
      r.totalPages >= 1 && (r.totalPages - 1) * itemsPerPage <= r.totalItems < r.totalPages * itemsPerPage
    ensures itemsPerPage > 0 ==> |r.items| <= itemsPerPage
    ensures forall v :: v in r.items ==> v in Rows(s, ownerId, ListById(channelId, categoryId), keyword, culture)
  {
    var rows := Rows(s, ownerId, ListById(channelId, categoryId), keyword, culture);
    var r := Paginate(rows, currentPage, itemsPerPage);
    assert forall v :: v in r.items ==> v in rows;
    r
  }
  /** A row selected by the id query, field by field. */
  lemma IdRow(s: Store, ownerId: string, channelId: string, categoryId: string, culture: string, v: ArticleSubCategoryView)
    requires IsRow(s, ownerId, ListById(channelId, categoryId), culture, v)
    ensures v.subCategory in s.subCategories && v.subCategory.ownerId == ownerId &&
      v.subCategory.channelId == channelId && v.subCategory.categoryId == categoryId &&
      ParentsOf(s, v.subCategory).Some? && !v.subCategory.isDeleted &&
      v.count == ArticlesOfSubCategory(s.articles, v.subCategory.id) && v.culture == culture
  {
    var q := ListById(channelId, categoryId);
    var p := ParentsOf(s, v.subCategory).value;
    assert KeyOk(q.channel, p.0.id, p.0.permaName) && KeyOk(q.category, p.1.id, p.1.permaName);
  }

  /** What a row of the list by id is: an owner's sub-category, not
      deleted, whose channel and category rows exist and have the given
      ids, and whose Title passes the keyword. */
  lemma ListByIdRows(s: Store, ownerId: string, channelId: string, categoryId: string, keyword: string, culture: string)
    ensures forall v :: v in Rows(s, ownerId, ListById(channelId, categoryId), keyword, culture) ==>
      v.subCategory in s.subCategories && v.subCategory.ownerId == ownerId &&
      v.subCategory.channelId == channelId && v.subCategory.categoryId == categoryId &&
      ParentsOf(s, v.subCategory).Some? && !v.subCategory.isDeleted &&
      MatchesKeyword(v.subCategory.title, keyword) &&
      v.count == ArticlesOfSubCategory(s.articles, v.subCategory.id) && v.culture == culture
  {
    forall v | v in Rows(s, ownerId, ListById(channelId, categoryId), keyword, culture) {
      IdRow(s, ownerId, channelId, categoryId, culture, v);
    }
  }

  /** The query's FirstOrDefault. */
  function FindSubCategory(s: Store, ownerId: string, q: Query, culture: string): (r: Option<ArticleSubCategoryView>)
    ensures r.None? <==> forall sc :: sc in s.subCategories ==> !Selected(s, ownerId, q, sc)
    ensures r.Some? ==> IsRow(s, ownerId, q, culture, r.value)
  {
    var rows := Rows(s, ownerId, q, "", culture);
    assert forall sc :: sc in s.subCategories && Selected(s, ownerId, q, sc) ==>
      IsRow(s, ownerId, q, culture, SubCategoryView(s, sc, ParentsOf(s, sc).value, culture));
    First(rows)
  }

  /** GetSubCategoryByPermaName: not deleted. */
  function GetSubCategoryByPermaName(s: Store, ownerId: string, permaName: string, channelPermaName: string,
                                     categoryPermaName: string, culture: string)
    : (r: Option<ArticleSubCategoryView>)
    ensures r.None? <==> forall sc :: sc in s.subCategories ==>
      !Selected(s, ownerId, Query(PermaIs(permaName), PermaIs(channelPermaName), PermaIs(categoryPermaName), true, false), sc)
    ensures r.Some? ==> (r.value.subCategory in s.subCategories && r.value.subCategory.ownerId == ownerId &&
      r.value.subCategory.permaName == permaName && !r.value.subCategory.isDeleted &&
      r.value.channelPermaName == channelPermaName && r.value.categoryPermaName == categoryPermaName)
  {
    FindSubCategory(s, ownerId, Query(PermaIs(permaName), PermaIs(channelPermaName), PermaIs(categoryPermaName), true, false), culture)
  }

  /** GetSubCategoryById: not deleted. */
  function GetSubCategoryById(s: Store, ownerId: string, id: string, channelId: string, categoryId: string, culture: string)
    : (r: Option<ArticleSubCategoryView>)
    ensures r.None? <==> forall sc :: sc in s.subCategories ==>
      !Selected(s, ownerId, Query(IdIs(id), IdIs(channelId), IdIs(categoryId), true, false), sc)
    ensures r.Some? ==> (r.value.subCategory in s.subCategories && r.value.subCategory.ownerId == ownerId &&
      r.value.subCategory.id == id && !r.value.subCategory.isDeleted &&
      r.value.subCategory.channelId == channelId && r.value.subCategory.categoryId == categoryId)
  {
    FindSubCategory(s, ownerId, Query(IdIs(id), IdIs(channelId), IdIs(categoryId), true, false), culture)
  }

  /** GetSubCategoryByPermaNameAdmin: deleted sub-categories included. */
  function GetSubCategoryByPermaNameAdmin(s: Store, ownerId: string, permaName: string, channelPermaName: string,
                                          categoryPermaName: string, culture: string)
    : (r: Option<ArticleSubCategoryView>)
    ensures r.None? <==> forall sc :: sc in s.subCategories ==>
      !Selected(s, ownerId, Query(PermaIs(permaName), PermaIs(channelPermaName), PermaIs(categoryPermaName), false, false), sc)
    ensures r.Some? ==> (r.value.subCategory in s.subCategories && r.value.subCategory.ownerId == ownerId &&
      r.value.subCategory.permaName == permaName &&
      r.value.channelPermaName == channelPermaName && r.value.categoryPermaName == categoryPermaName)
  {
    FindSubCategory(s, ownerId, Query(PermaIs(permaName), PermaIs(channelPermaName), PermaIs(categoryPermaName), false, false), culture)
  }

  /** GetSubCategoryByIdAdmin: unlike the other admin lookups it still drops
      deleted sub-categories, so it answers exactly as GetSubCategoryById. */
  function GetSubCategoryByIdAdmin(s: Store, ownerId: string, id: string, channelId: string, categoryId: string, culture: string)
    : (r: Option<ArticleSubCategoryView>)
    ensures r.None? <==> forall sc :: sc in s.subCategories ==>
      !Selected(s, ownerId, Query(IdIs(id), IdIs(channelId), IdIs(categoryId), true, false), sc)
    ensures r.Some? ==> (r.value.subCategory in s.subCategories && r.value.subCategory.ownerId == ownerId &&
      r.value.subCategory.id == id && !r.value.subCategory.isDeleted &&
      r.value.subCategory.channelId == channelId && r.value.subCategory.categoryId == categoryId)
  {
    FindSubCategory(s, ownerId, Query(IdIs(id), IdIs(channelId), IdIs(categoryId), true, false), culture)
  }

  /** The admin lookup by perma-name finds a deleted sub-category that the
      admin lookup by id does not, whenever its parents exist. */
  lemma {:induction false} AdminLookupsDisagreeOnDeleted(s: Store, sc: SubCategory, culture: string)
    requires UniqueBy(s.subCategories, SubCategoryKey)
    requires sc in s.subCategories && sc.isDeleted && ParentsOf(s, sc).Some?
    ensures GetSubCategoryByPermaNameAdmin(s, sc.ownerId, sc.permaName, ParentsOf(s, sc).value.0.permaName,
                                           ParentsOf(s, sc).value.1.permaName, culture).Some?
    ensures GetSubCategoryByIdAdmin(s, sc.ownerId, sc.id, sc.channelId, sc.categoryId, culture).None?
  {
    var p := ParentsOf(s, sc).value;
    assert Selected(s, sc.ownerId, Query(PermaIs(sc.permaName), PermaIs(p.0.permaName), PermaIs(p.1.permaName), false, false), sc);
    forall d | d in s.subCategories && Selected(s, sc.ownerId, Query(IdIs(sc.id), IdIs(sc.channelId), IdIs(sc.categoryId), true, false), d)
      ensures false
    {
      UniqueKeyEq(s.subCategories, SubCategoryKey, d, sc);
    }
  }

  /** IsUniqueArticleSubCategoryPermaName(ownerId, permaName, channelId,
      categoryId): no sub-category matches all four. */
  function IsUniqueArticleSubCategoryPermaName(subCategories: seq<SubCategory>, ownerId: string, permaName: string,
                                               channelId: string, categoryId: string)
    : (r: bool)
    ensures r <==> forall c :: c in subCategories ==>
      !(c.permaName == permaName && c.ownerId == ownerId && c.channelId == channelId && c.categoryId == categoryId)
  {
    FirstOrDefault(subCategories, (c: SubCategory) =>
      c.permaName == permaName && c.ownerId == ownerId && c.channelId == channelId && c.categoryId == categoryId).None?
  }

  /** The upsert's parent checks: channel first, then category, one error each. */
  function ParentErrors(s: Store, item: SubCategory): (r: seq<ErrorModel>)
    ensures |r| <= 2 && InCheckOrder(r)
    ensures ChannelNotFound in r <==> FindBy(s.channels, ChannelKey, item.channelId).None?
    ensures CategoryNotFound in r <==> FindBy(s.categories, CategoryKey, item.categoryId).None?
    ensures forall e :: e in r ==> e == ChannelNotFound || e == CategoryNotFound
  {
    (if FindBy(s.channels, ChannelKey, item.channelId).None? then [ChannelNotFound] else []) +
    (if FindBy(s.categories, CategoryKey, item.categoryId).None? then [CategoryNotFound] else [])
  }

  /** UpsertArticleSubCategoryAsync. Any parent error stops it with the
      table untouched. Otherwise an item whose Id is not in the table has
      Created and Modified stamped and, if the guard (arguments swapped)
      passes, is inserted; an existing one has Modified stamped and replaces
      the row, the guard running only when the perma-name changed. The
      stamps happen before the guard, so a rejected item comes back stamped. */
  method UpsertArticleSubCategory(db: CmsDbContext, item: SubCategory, now: DateTime, saveFails: bool, failureMessage: string)
    returns (response: UpsertResponseModel<SubCategory>)
    requires db.Valid()
    modifies db
    ensures db.Valid()
    ensures db.articles == old(db.articles) && db.channels == old(db.channels)
    ensures db.categories == old(db.categories) && db.author == old(db.author)
    ensures ParentErrors(old(db.State()), item) != [] ==>
      Rejected(response, ParentErrors(old(db.State()), item), item, old(db.subCategories), db.subCategories)
    ensures ParentErrors(old(db.State()), item) == [] && FindBy(old(db.subCategories), SubCategoryKey, item.id).None? ==>
      var stamped := item.(created := now, modified := now);
      if IsUniqueArticleSubCategoryPermaName(old(db.subCategories), item.permaName, item.ownerId, item.channelId, item.categoryId) then
        Written(response, stamped, saveFails, failureMessage, old(db.subCategories), db.subCategories, old(db.subCategories) + [stamped])
      else
        Rejected(response, [NotUnique], stamped, old(db.subCategories), db.subCategories)
    ensures ParentErrors(old(db.State()), item) == [] && FindBy(old(db.subCategories), SubCategoryKey, item.id).Some? ==>
      var stamped := item.(modified := now);
      if item.permaName != FindBy(old(db.subCategories), SubCategoryKey, item.id).value.permaName &&
         !IsUniqueArticleSubCategoryPermaName(old(db.subCategories), item.permaName, item.ownerId, item.channelId, item.categoryId) then
        Rejected(response, [NotUnique], stamped, old(db.subCategories), db.subCategories)
      else
        Written(response, stamped, saveFails, failureMessage, old(db.subCategories), db.subCategories,
                ReplaceBy(old(db.subCategories), SubCategoryKey, stamped))
  {
    var isValid := true;
    var responseStatus := Success;
    var errors: seq<ErrorModel> := [];
    var item := item;

    var channel := FindBy(db.channels, ChannelKey, item.channelId);
    if channel.None? {
      isValid := false;
      errors := errors + [ChannelNotFound];
    }

    var category := FindBy(db.categories, CategoryKey, item.categoryId);
    if category.None? {
      isValid := false;
      errors := errors + [CategoryNotFound];
    }
    assert errors == ParentErrors(db.State(), item);

    if isValid {
      var failure;
      failure, item := WriteSubCategory(db, item, now, saveFails, failureMessage);
      isValid := failure == [];
      errors := errors + failure;
    }

    if !isValid {
      responseStatus := BadRequest;
    }
    response := UpsertResponseModel(responseStatus, errors, item);
  }

  /** The part of the upsert past the parent checks. An unknown Id gets
      Created and Modified stamped and is inserted when the guard passes; a
      known one gets Modified stamped and replaces the row, the guard running
      only for a changed perma-name. `written` is the item as stamped. */
  method WriteSubCategory(db: CmsDbContext, item: SubCategory, now: DateTime, saveFails: bool, failureMessage: string)
    returns (errors: seq<ErrorModel>, written: SubCategory)
    requires db.Valid()
    modifies db
    ensures db.Valid()
    ensures db.articles == old(db.articles) && db.channels == old(db.channels)
    ensures db.categories == old(db.categories) && db.author == old(db.author)
    ensures FindBy(old(db.subCategories), SubCategoryKey, item.id).None? ==>
      written == item.(created := now, modified := now) &&
      if IsUniqueArticleSubCategoryPermaName(old(db.subCategories), item.permaName, item.ownerId, item.channelId, item.categoryId) then
        Stored(errors, saveFails, failureMessage, old(db.subCategories), db.subCategories, old(db.subCategories) + [written])
      else
        errors == [NotUnique] && db.subCategories == old(db.subCategories)
    ensures FindBy(old(db.subCategories), SubCategoryKey, item.id).Some? ==>
      written == item.(modified := now) &&
      if item.permaName != FindBy(old(db.subCategories), SubCategoryKey, item.id).value.permaName &&
         !IsUniqueArticleSubCategoryPermaName(old(db.subCategories), item.permaName, item.ownerId, item.channelId, item.categoryId) then
        errors == [NotUnique] && db.subCategories == old(db.subCategories)
      else
        Stored(errors, saveFails, failureMessage, old(db.subCategories), db.subCategories,
               ReplaceBy(old(db.subCategories), SubCategoryKey, written))
  {
    var original := FindBy(db.subCategories, SubCategoryKey, item.id);
    if original.None? {
      written := item.(created := now, modified := now);
      if IsUniqueArticleSubCategoryPermaName(db.subCategories, written.permaName, written.ownerId, written.channelId, written.categoryId) {
        errors := SaveSubCategory(db, written, true, saveFails, failureMessage);
      } else {
        errors := [NotUnique];
      }
    } else {
      written := item.(modified := now);
      if written.permaName != original.value.permaName &&
         !IsUniqueArticleSubCategoryPermaName(db.subCategories, written.permaName, written.ownerId, written.channelId, written.categoryId) {
        errors := [NotUnique];
      } else {
        errors := SaveSubCategory(db, written, false, saveFails, failureMessage);
      }
    }
  }

  /** SubCategories.Add or SubCategories.Update followed by SaveChangesAsync
      inside its try/catch: a throwing save leaves the table as it was and
      yields the code-500 error with the exception message. */
  method SaveSubCategory(db: CmsDbContext, item: SubCategory, insert: bool, saveFails: bool, failureMessage: string)
    returns (failure: seq<ErrorModel>)
    requires db.Valid()
    requires insert <==> FindBy(db.subCategories, SubCategoryKey, item.id).None?
    modifies db
    ensures db.Valid()
    ensures db.articles == old(db.articles) && db.channels == old(db.channels)
    ensures db.categories == old(db.categories) && db.author == old(db.author)
    ensures saveFails ==> failure == [StoreFault(failureMessage)] && db.subCategories == old(db.subCategories)
    ensures !saveFails ==> failure == []
    ensures !saveFails ==>
      db.subCategories == if insert then old(db.subCategories) + [item] else ReplaceBy(old(db.subCategories), SubCategoryKey, item)
  {
    if saveFails {
      failure := [StoreFault(failureMessage)];
    } else if insert {
      AppendUnique(db.subCategories, SubCategoryKey, item);
      db.subCategories := db.subCategories + [item];
      failure := [];
    } else {
      ReplaceUnique(db.subCategories, SubCategoryKey, item);
      db.subCategories := ReplaceBy(db.subCategories, SubCategoryKey, item);
      failure := [];
    }
  }
}
