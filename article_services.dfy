/** CmsArticleServices: the public and admin article lists, the lookups by
    perma-name and by id, the upsert with its perma-name guard, and the
    physical and logical deletes. Every query inner-joins an article to its
    channel, category, sub-category and author. The current time arrives
    as `now` (DateTimeHelpers.GetUnixTime(DateTime.Now) for the queries,
    DateTime.Now for the stamps) and GetUnixTime itself as `unixTime`. */
module ArticleServices {
  import opened Seqs
  import opened Models
  import opened Pagination
  import opened Data

  const NoSuchArticle := ErrorModel(404, "There is no such article.")
  const NoSuchChannel := ErrorModel(404, "There is no such channel.")

  /** The four rows an article joins to. */
  datatype Parents = Parents(channel: Channel, category: Category, subCategory: SubCategory, author: Author)

  /** The inner joins on ChannelId, CategoryId, SubCategoryId and AuthorId:
      the parent rows when all four exist. */
  function ParentsOf(s: Store, a: Article): (r: Option<Parents>)
    ensures r.Some? <==>
      FindBy(s.channels, ChannelKey, a.channelId).Some? && FindBy(s.categories, CategoryKey, a.categoryId).Some? &&
      FindBy(s.subCategories, SubCategoryKey, a.subCategoryId).Some? && FindBy(s.author, AuthorKey, a.authorId).Some?
    ensures r.Some? ==> r.value.channel in s.channels && r.value.channel.id == a.channelId
    ensures r.Some? ==> r.value.category in s.categories && r.value.category.id == a.categoryId
    ensures r.Some? ==> r.value.subCategory in s.subCategories && r.value.subCategory.id == a.subCategoryId
    ensures r.Some? ==> r.value.author in s.author && r.value.author.id == a.authorId
  {
    var ch := FindBy(s.channels, ChannelKey, a.channelId);
    var ca := FindBy(s.categories, CategoryKey, a.categoryId);
    var sc := FindBy(s.subCategories, SubCategoryKey, a.subCategoryId);
    var au := FindBy(s.author, AuthorKey, a.authorId);
    if ch.Some? && ca.Some? && sc.Some? && au.Some? then Some(Parents(ch.value, ca.value, sc.value, au.value)) else None
  }

  /** The ArticleViewModel projection. It does not copy OwnerId, Modified,
      Created, IsDeleted or IsPublished, which keep their defaults. */
  function ToView(a: Article, p: Parents): ArticleView
  {
    ArticleView(a.(ownerId := "", modified := 0, created := 0, isDeleted := false, isPublished := false),
                p.channel.name, p.channel.permaName, p.category.name, p.category.permaName,
                p.subCategory.name, p.subCategory.permaName, p.author.name, p.author.permaName,
                p.author.iconImageUrl, p.author.description)
  }

  /** The public window: published strictly before now, expiring strictly after. */
  predicate OnAir(a: Article, now: int)
  {
    a.publishUnixtime < now && a.expireUnixtime > now
  }

  /** The lists' first where clause. The public list keeps live articles
      inside the window; the admin list keeps every article of the culture. */
  predicate BaseKeep(public: bool, a: Article, ownerId: string, culture: string, now: int)
  {
    if public then OnAir(a, now) && a.culture == culture && !a.isDeleted && a.ownerId == ownerId
    else a.culture == culture && a.ownerId == ownerId
  }

  /** `v` is the view of a joined article the base clause keeps. */
  ghost predicate IsBaseRow(s: Store, public: bool, ownerId: string, culture: string, now: int, v: ArticleView)
  {
    exists a :: a in s.articles && ParentsOf(s, a).Some? && BaseKeep(public, a, ownerId, culture, now) &&
                v == ToView(a, ParentsOf(s, a).value)
  }

  /** The joined, filtered and projected query both lists start from. */
  function BaseRows(s: Store, public: bool, ownerId: string, culture: string, now: int): (r: seq<ArticleView>)
    ensures |r| <= |s.articles|
    ensures forall v :: v in r ==> IsBaseRow(s, public, ownerId, culture, now, v)
    ensures forall a :: a in s.articles && ParentsOf(s, a).Some? && BaseKeep(public, a, ownerId, culture, now) ==>
      ToView(a, ParentsOf(s, a).value) in r
  {
    JoinWhere(s.articles, (a: Article) => ParentsOf(s, a),
              (a: Article, p: Parents) => BaseKeep(public, a, ownerId, culture, now),
              (a: Article, p: Parents) => ToView(a, p))
  }

  /** One base row per joined article the base clause keeps, counted by
      position in the table. */
  lemma BaseRowsCount(s: Store, public: bool, ownerId: string, culture: string, now: int)
    ensures |BaseRows(s, public, ownerId, culture, now)| ==
      |set i | 0 <= i < |s.articles| && ParentsOf(s, s.articles[i]).Some? &&
               BaseKeep(public, s.articles[i], ownerId, culture, now)|
  {
    var join := (a: Article) => ParentsOf(s, a);
    var keep := (a: Article, p: Parents) => BaseKeep(public, a, ownerId, culture, now);
    CountIsPositions(s.articles, Joins(join, keep));
    assert Positions(s.articles, Joins(join, keep)) ==
      set i | 0 <= i < |s.articles| && ParentsOf(s, s.articles[i]).Some? && BaseKeep(public, s.articles[i], ownerId, culture, now);
  }

  /** The channel a list names: perma-name and owner, deleted rows included. */
  function ChannelNamed(s: Store, ownerId: string, permaName: string): (r: Option<Channel>)
    ensures r.None? <==> forall c :: c in s.channels ==> !(c.permaName == permaName && c.ownerId == ownerId)
    ensures r.Some? ==> r.value in s.channels && r.value.permaName == permaName && r.value.ownerId == ownerId
  {
    FirstOrDefault(s.channels, (c: Channel) => c.permaName == permaName && c.ownerId == ownerId)
  }

  /** The channel Id the narrowing compares with: the named channel's, or
      the null Id of a fresh ArticleChannelModel when no channel is named. */
  function ChannelIdOf(s: Store, ownerId: string, channelPermaName: string): (r: Option<string>)
    ensures channelPermaName == "" ==> r.None?
    ensures channelPermaName != "" && ChannelNamed(s, ownerId, channelPermaName).Some? ==>
      r == Some(ChannelNamed(s, ownerId, channelPermaName).value.id)
  {
    if channelPermaName == "" then None
    else
      match ChannelNamed(s, ownerId, channelPermaName)
      case None => None
      case Some(c) => Some(c.id)
  }

  /** The category a list names: perma-name and channel Id, in any owner; a
      null channel Id matches no row. */
  function CategoryNamed(s: Store, permaName: string, channelId: Option<string>): (r: Option<Category>)
    ensures r.None? <==> forall c :: c in s.categories ==> !(c.permaName == permaName && Some(c.channelId) == channelId)
    ensures r.Some? ==> r.value in s.categories && r.value.permaName == permaName && Some(r.value.channelId) == channelId
  {
    FirstOrDefault(s.categories, (c: Category) => c.permaName == permaName && Some(c.channelId) == channelId)
  }

  /** The sub-category a list names, matched like the category. */
  function SubCategoryNamed(s: Store, permaName: string, channelId: Option<string>): (r: Option<SubCategory>)
    ensures r.None? <==> forall c :: c in s.subCategories ==> !(c.permaName == permaName && Some(c.channelId) == channelId)
    ensures r.Some? ==> r.value in s.subCategories && r.value.permaName == permaName && Some(r.value.channelId) == channelId
  {
    FirstOrDefault(s.subCategories, (c: SubCategory) => c.permaName == permaName && Some(c.channelId) == channelId)
  }

  /** The author a list names: perma-name and owner. */
  function AuthorNamed(s: Store, ownerId: string, permaName: string): (r: Option<Author>)
    ensures r.None? <==> forall au :: au in s.author ==> !(au.permaName == permaName && au.ownerId == ownerId)
    ensures r.Some? ==> r.value in s.author && r.value.permaName == permaName && r.value.ownerId == ownerId
  {
    FirstOrDefault(s.author, (au: Author) => au.permaName == permaName && au.ownerId == ownerId)
  }

  /** The successive Where calls of a list: an optional channel Id (whose
      own None is the null Id), optional category, sub-category and author
      ids, and the keyword on Title. */
  datatype Narrowing = Narrowing(channel: Option<Option<string>>, category: Option<string>, subCategory: Option<string>,
                                 author: Option<string>, keyword: string)

  predicate Narrows(n: Narrowing, v: ArticleView)
  {
    (n.channel.Some? ==> n.channel.value == Some(v.article.channelId)) &&
    (n.category.Some? ==> v.article.categoryId == n.category.value) &&
    (n.subCategory.Some? ==> v.article.subCategoryId == n.subCategory.value) &&
    (n.author.Some? ==> v.article.authorId == n.author.value) &&
    MatchesKeyword(v.article.title, n.keyword)
  }

  /** The Where calls, one after the other: exactly the rows the narrowing admits. */
  function Narrow(rows: seq<ArticleView>, n: Narrowing): (r: seq<ArticleView>)
    ensures |r| <= |rows|
    ensures forall v :: v in r <==> v in rows && Narrows(n, v)
  {
    var byChannel := if n.channel.Some? then Where(rows, (v: ArticleView) => n.channel.value == Some(v.article.channelId)) else rows;
    var byCategory := if n.category.Some? then Where(byChannel, (v: ArticleView) => v.article.categoryId == n.category.value) else byChannel;
    var bySub := if n.subCategory.Some? then Where(byCategory, (v: ArticleView) => v.article.subCategoryId == n.subCategory.value) else byCategory;
    var byAuthor := if n.author.Some? then Where(bySub, (v: ArticleView) => v.article.authorId == n.author.value) else bySub;
    if n.keyword == "" then byAuthor else Where(byAuthor, (v: ArticleView) => Contains(v.article.title, n.keyword))
  }

  /** The narrowing keeps every copy of a row it admits and no copy of any other. */
  lemma NarrowMultiplicity(rows: seq<ArticleView>, n: Narrowing)
    ensures forall v :: multiset(Narrow(rows, n))[v] == if Narrows(n, v) then multiset(rows)[v] else 0
  {
    var byChannel := rows;
    if n.channel.Some? {
      var p := (v: ArticleView) => n.channel.value == Some(v.article.channelId);
      WhereMultiplicity(rows, p);
      byChannel := Where(rows, p);
    }
    var byCategory := byChannel;
    if n.category.Some? {
      var p := (v: ArticleView) => v.article.categoryId == n.category.value;
      WhereMultiplicity(byChannel, p);
      byCategory := Where(byChannel, p);
    }
    var bySub := byCategory;
    if n.subCategory.Some? {
      var p := (v: ArticleView) => v.article.subCategoryId == n.subCategory.value;
      WhereMultiplicity(byCategory, p);
      bySub := Where(byCategory, p);
    }
    var byAuthor := bySub;
    if n.author.Some? {
      var p := (v: ArticleView) => v.article.authorId == n.author.value;
      WhereMultiplicity(bySub, p);
      byAuthor := Where(bySub, p);
    }
    if n.keyword != "" {
      WhereMultiplicity(byAuthor, (v: ArticleView) => Contains(v.article.title, n.keyword));
    }
  }

  /** Every category, sub-category and author the list names exists; the
      code reads the Id of each lookup result, so a missing one throws. */
  predicate NamesResolve(s: Store, ownerId: string, channelPermaName: string, categoryPermaName: string,
                         subCategoryPermaName: string, authorPermaName: string)
  {
    var channelId := ChannelIdOf(s, ownerId, channelPermaName);
    (categoryPermaName != "" ==> CategoryNamed(s, categoryPermaName, channelId).Some?) &&
    (subCategoryPermaName != "" ==> SubCategoryNamed(s, subCategoryPermaName, channelId).Some?) &&
    (authorPermaName != "" ==> AuthorNamed(s, ownerId, authorPermaName).Some?)
  }

  /** What the list narrows to once every name resolves. The public list
      always compares ChannelId with the chosen channel's Id; the admin list
      only when a channel is named. */
  function NarrowingOf(s: Store, public: bool, ownerId: string, channelPermaName: string, categoryPermaName: string,
                       subCategoryPermaName: string, authorPermaName: string, keyword: string): (n: Narrowing)
    requires NamesResolve(s, ownerId, channelPermaName, categoryPermaName, subCategoryPermaName, authorPermaName)
    ensures n.keyword == keyword
    ensures n.channel.Some? <==> public || channelPermaName != ""
    ensures n.channel.Some? ==> n.channel.value == ChannelIdOf(s, ownerId, channelPermaName)
    ensures n.category.Some? <==> categoryPermaName != ""
    ensures n.subCategory.Some? <==> subCategoryPermaName != ""
    ensures n.author.Some? <==> authorPermaName != ""
  {
    var channelId := ChannelIdOf(s, ownerId, channelPermaName);
    Narrowing(
      if public || channelPermaName != "" then Some(channelId) else None,
      if categoryPermaName == "" then None else Some(CategoryNamed(s, categoryPermaName, channelId).value.id),
      if subCategoryPermaName == "" then None else Some(SubCategoryNamed(s, subCategoryPermaName, channelId).value.id),
      if authorPermaName == "" then None else Some(AuthorNamed(s, ownerId, authorPermaName).value.id),
      keyword)
  }

  /** The list gets past both 404 checks. */
  predicate Reaches(s: Store, public: bool, ownerId: string, channelPermaName: string, culture: string, now: int)
  {
    |BaseRows(s, public, ownerId, culture, now)| > 0 &&
    (channelPermaName == "" || ChannelNamed(s, ownerId, channelPermaName).Some?)
  }

  /** When the list gets past its 404 checks, it does not throw: every name
      resolves, and a non-empty result has a non-zero page size. */
  predicate ArticleListDefined(s: Store, public: bool, ownerId: string, channelPermaName: string, categoryPermaName: string,
                               subCategoryPermaName: string, authorPermaName: string, keyword: string, culture: string,
                               itemsPerPage: int, now: int)
  {
    Reaches(s, public, ownerId, channelPermaName, culture, now) ==>
      NamesResolve(s, ownerId, channelPermaName, categoryPermaName, subCategoryPermaName, authorPermaName) &&
      (|Narrow(BaseRows(s, public, ownerId, culture, now),
               NarrowingOf(s, public, ownerId, channelPermaName, categoryPermaName, subCategoryPermaName, authorPermaName, keyword))| > 0
       ==> itemsPerPage != 0)
  }

  /** `r` lists exactly `items`, newest first, with their count and the
      page count. */
  ghost predicate OrderedPageOf(r: PaginationModel<ArticleView>, items: seq<ArticleView>, currentPage: int, itemsPerPage: int)
    requires |items| > 0 ==> itemsPerPage != 0
  {
    r.errors == [] && r.currentPage == currentPage && r.itemsPerPage == itemsPerPage &&
    r.totalItems == |items| && r.totalPages == TotalPages(|items|, itemsPerPage) &&
    SortedDescending(r.items, PublishKey) && multiset(r.items) == multiset(items)
  }

  /** The envelope of a list that got past its checks. */
  function OrderedPage(items: seq<ArticleView>, currentPage: int, itemsPerPage: int): (r: PaginationModel<ArticleView>)
    requires |items| > 0 ==> itemsPerPage != 0
    ensures OrderedPageOf(r, items, currentPage, itemsPerPage)
    ensures |r.items| == |items|
  {
    var totalItems := |items|;
    var totalPages := TotalPages(totalItems, itemsPerPage);
    var ordered := OrderByDescending(items, PublishKey);
    PaginationModel(currentPage, totalPages, itemsPerPage, totalItems, ordered, [])
  }

  /** What both lists compute. An empty base query gives the "no such
      article" page and an unknown channel the "no such channel" page.
      Otherwise the items are every narrowed row, newest first: the
      Skip and Take calls build queries that are then discarded, so the
      page is never cut. TotalPages still counts pages. */
  function ArticleList(s: Store, public: bool, ownerId: string, channelPermaName: string, categoryPermaName: string,
                       subCategoryPermaName: string, authorPermaName: string, keyword: string, culture: string,
                       currentPage: int, itemsPerPage: int, now: int): (r: PaginationModel<ArticleView>)
    requires ArticleListDefined(s, public, ownerId, channelPermaName, categoryPermaName, subCategoryPermaName,
                                authorPermaName, keyword, culture, itemsPerPage, now)
    ensures |BaseRows(s, public, ownerId, culture, now)| == 0 ==> r == ErrorPage(NoSuchArticle)
    ensures (|BaseRows(s, public, ownerId, culture, now)| > 0 && channelPermaName != "" &&
             ChannelNamed(s, ownerId, channelPermaName).None?) ==> r == ErrorPage(NoSuchChannel)
    ensures Reaches(s, public, ownerId, channelPermaName, culture, now) ==>
      OrderedPageOf(r, Narrow(BaseRows(s, public, ownerId, culture, now),
                              NarrowingOf(s, public, ownerId, channelPermaName, categoryPermaName,
                                          subCategoryPermaName, authorPermaName, keyword)),
                    currentPage, itemsPerPage)
  {
    var rows := BaseRows(s, public, ownerId, culture, now);
    if |rows| == 0 then ErrorPage(NoSuchArticle)
    else if channelPermaName != "" && ChannelNamed(s, ownerId, channelPermaName).None? then ErrorPage(NoSuchChannel)
    else
      var items := Narrow(rows, NarrowingOf(s, public, ownerId, channelPermaName, categoryPermaName,
                                            subCategoryPermaName, authorPermaName, keyword));
      OrderedPage(items, currentPage, itemsPerPage)
  }

  /** A list that gets past its checks holds exactly the base rows the
      narrowing admits. */
  lemma ListedArticles(s: Store, public: bool, ownerId: string, channelPermaName: string, categoryPermaName: string,
                       subCategoryPermaName: string, authorPermaName: string, keyword: string, culture: string,
                       currentPage: int, itemsPerPage: int, now: int)
    requires ArticleListDefined(s, public, ownerId, channelPermaName, categoryPermaName, subCategoryPermaName,
                                authorPermaName, keyword, culture, itemsPerPage, now)
    requires Reaches(s, public, ownerId, channelPermaName, culture, now)
    ensures forall v :: v in ArticleList(s, public, ownerId, channelPermaName, categoryPermaName, subCategoryPermaName,
                                         authorPermaName, keyword, culture, currentPage, itemsPerPage, now).items <==>
      v in BaseRows(s, public, ownerId, culture, now) &&
      Narrows(NarrowingOf(s, public, ownerId, channelPermaName, categoryPermaName, subCategoryPermaName, authorPermaName, keyword), v)
  {
    var r := ArticleList(s, public, ownerId, channelPermaName, categoryPermaName, subCategoryPermaName,
                         authorPermaName, keyword, culture, currentPage, itemsPerPage, now);
    var rows := Narrow(BaseRows(s, public, ownerId, culture, now),
                       NarrowingOf(s, public, ownerId, channelPermaName, categoryPermaName, subCategoryPermaName, authorPermaName, keyword));
    assert multiset(r.items) == multiset(rows);
    forall v
      ensures v in r.items <==> v in rows
    {
      assert v in r.items <==> v in multiset(r.items);
      assert v in rows <==> v in multiset(rows);
    }
  }

  /** GetArticlesByPermaName: the public list. */
  function GetArticlesByPermaName(s: Store, ownerId: string, channelPermaName: string, categoryPermaName: string,
                                  subCategoryPermaName: string, authorPermaName: string, keyword: string, culture: string,
                                  currentPage: int, itemsPerPage: int, now: int): (r: PaginationModel<ArticleView>)
    requires ArticleListDefined(s, true, ownerId, channelPermaName, categoryPermaName, subCategoryPermaName,
                                authorPermaName, keyword, culture, itemsPerPage, now)
    ensures r.errors == [] || r.errors == [NoSuchArticle] || r.errors == [NoSuchChannel]
    ensures forall v :: v in r.items ==> OnAir(v.article, now) && v.article.culture == culture
  {
    var r := ArticleList(s, true, ownerId, channelPermaName, categoryPermaName, subCategoryPermaName,
                         authorPermaName, keyword, culture, currentPage, itemsPerPage, now);
    if Reaches(s, true, ownerId, channelPermaName, culture, now) then
      ListedArticles(s, true, ownerId, channelPermaName, categoryPermaName, subCategoryPermaName,
                     authorPermaName, keyword, culture, currentPage, itemsPerPage, now);
      PublicRowsOnAir(s, ownerId, culture, now);
      r
    else r
  }

  lemma PublicRowsOnAir(s: Store, ownerId: string, culture: string, now: int)
    ensures forall v :: v in BaseRows(s, true, ownerId, culture, now) ==> OnAir(v.article, now) && v.article.culture == culture
  {
    forall v | v in BaseRows(s, true, ownerId, culture, now)
      ensures OnAir(v.article, now) && v.article.culture == culture
    {
      assert IsBaseRow(s, true, ownerId, culture, now, v);
      var a :| a in s.articles && ParentsOf(s, a).Some? && BaseKeep(true, a, ownerId, culture, now) &&
               v == ToView(a, ParentsOf(s, a).value);
    }
  }

  /** A null channel Id narrows every list to nothing. */
  lemma NullChannelNarrowsToNothing(rows: seq<ArticleView>, n: Narrowing)
    requires n.channel == Some(None)
    ensures Narrow(rows, n) == []
  {
    MemberOfNonEmpty(Narrow(rows, n));
  }

  /** The public list with no channel named compares ChannelId with a null
      Id, so it lists nothing, even though it got past the 404 check. */
  lemma PublicListNeedsAChannel(s: Store, ownerId: string, categoryPermaName: string, subCategoryPermaName: string,
                                authorPermaName: string, keyword: string, culture: string,
                                currentPage: int, itemsPerPage: int, now: int)
    requires ArticleListDefined(s, true, ownerId, "", categoryPermaName, subCategoryPermaName,
                                authorPermaName, keyword, culture, itemsPerPage, now)
    requires |BaseRows(s, true, ownerId, culture, now)| > 0
    ensures var r := GetArticlesByPermaName(s, ownerId, "", categoryPermaName, subCategoryPermaName,
                                            authorPermaName, keyword, culture, currentPage, itemsPerPage, now);
      r.errors == [] && r.items == [] && r.totalItems == 0 && r.totalPages == 0
  {
    var n := NarrowingOf(s, true, ownerId, "", categoryPermaName, subCategoryPermaName, authorPermaName, keyword);
    NullChannelNarrowsToNothing(BaseRows(s, true, ownerId, culture, now), n);
    var r := ArticleList(s, true, ownerId, "", categoryPermaName, subCategoryPermaName,
                         authorPermaName, keyword, culture, currentPage, itemsPerPage, now);
    assert |multiset(r.items)| == 0;
  }

  /** GetArticlesByPermaNameAdmin: the admin list, deleted and off-window
      articles included. */
  function GetArticlesByPermaNameAdmin(s: Store, ownerId: string, channelPermaName: string, categoryPermaName: string,
                                       subCategoryPermaName: string, authorPermaName: string, keyword: string, culture: string,
                                       currentPage: int, itemsPerPage: int, now: int): (r: PaginationModel<ArticleView>)
    requires ArticleListDefined(s, false, ownerId, channelPermaName, categoryPermaName, subCategoryPermaName,
                                authorPermaName, keyword, culture, itemsPerPage, now)
    ensures r.errors == [] || r.errors == [NoSuchArticle] || r.errors == [NoSuchChannel]
    ensures channelPermaName == "" && categoryPermaName == "" && subCategoryPermaName == "" && authorPermaName == "" &&
            keyword == "" && r.errors == [] ==>
      r.totalItems == |BaseRows(s, false, ownerId, culture, now)|
  {
    ArticleList(s, false, ownerId, channelPermaName, categoryPermaName, subCategoryPermaName,
                authorPermaName, keyword, culture, currentPage, itemsPerPage, now)
  }

  /** A public row is also an admin row. */
  lemma PublicRowsAreAdminRows(s: Store, ownerId: string, culture: string, now: int)
    ensures forall v :: v in BaseRows(s, true, ownerId, culture, now) ==> v in BaseRows(s, false, ownerId, culture, now)
  {
    forall v | v in BaseRows(s, true, ownerId, culture, now)
      ensures v in BaseRows(s, false, ownerId, culture, now)
    {
      assert IsBaseRow(s, true, ownerId, culture, now, v);
      var a :| a in s.articles && ParentsOf(s, a).Some? && BaseKeep(true, a, ownerId, culture, now) &&
               v == ToView(a, ParentsOf(s, a).value);
      assert BaseKeep(false, a, ownerId, culture, now);
    }
  }

  /** Whatever the public list shows, the admin list with the same
      arguments shows too. */
  lemma PublicListWithinAdminList(s: Store, ownerId: string, channelPermaName: string, categoryPermaName: string,
                                  subCategoryPermaName: string, authorPermaName: string, keyword: string, culture: string,
                                  currentPage: int, itemsPerPage: int, now: int)
    requires ArticleListDefined(s, true, ownerId, channelPermaName, categoryPermaName, subCategoryPermaName,
                                authorPermaName, keyword, culture, itemsPerPage, now)
    requires ArticleListDefined(s, false, ownerId, channelPermaName, categoryPermaName, subCategoryPermaName,
                                authorPermaName, keyword, culture, itemsPerPage, now)
    requires Reaches(s, true, ownerId, channelPermaName, culture, now)
    ensures Reaches(s, false, ownerId, channelPermaName, culture, now)
    ensures forall v :: v in GetArticlesByPermaName(s, ownerId, channelPermaName, categoryPermaName, subCategoryPermaName,
                                                    authorPermaName, keyword, culture, currentPage, itemsPerPage, now).items ==>
      v in GetArticlesByPermaNameAdmin(s, ownerId, channelPermaName, categoryPermaName, subCategoryPermaName,
                                       authorPermaName, keyword, culture, currentPage, itemsPerPage, now).items
  {
    PublicRowsAreAdminRows(s, ownerId, culture, now);
    var pub := BaseRows(s, true, ownerId, culture, now);
    assert pub[0] in pub;
    ListedArticles(s, true, ownerId, channelPermaName, categoryPermaName, subCategoryPermaName,
                   authorPermaName, keyword, culture, currentPage, itemsPerPage, now);
    ListedArticles(s, false, ownerId, channelPermaName, categoryPermaName, subCategoryPermaName,
                   authorPermaName, keyword, culture, currentPage, itemsPerPage, now);
  }

  /** The where clause of GetArticleByPermaName, on a joined article. */
  predicate AddressKeep(a: Article, p: Parents, ownerId: string, channelPermaName: string, categoryPermaName: string,
                        subCategoryPermaName: string, permaName: string, culture: string, now: int)
  {
    OnAir(a, now) && a.culture == culture && a.ownerId == ownerId && a.permaName == permaName &&
    p.channel.permaName == channelPermaName && p.category.permaName == categoryPermaName &&
    p.subCategory.permaName == subCategoryPermaName && !a.isDeleted
  }

  ghost predicate Addressed(s: Store, a: Article, ownerId: string, channelPermaName: string, categoryPermaName: string,
                            subCategoryPermaName: string, permaName: string, culture: string, now: int)
  {
    ParentsOf(s, a).Some? &&
    AddressKeep(a, ParentsOf(s, a).value, ownerId, channelPermaName, categoryPermaName, subCategoryPermaName, permaName, culture, now)
  }

  /** GetArticleByPermaName: the first live, on-air article of the owner
      and culture with that perma-name under the named channel, category
      and sub-category, or null. */
  function GetArticleByPermaName(s: Store, ownerId: string, channelPermaName: string, categoryPermaName: string,
                                 subCategoryPermaName: string, permaName: string, culture: string, now: int)
    : (r: Option<ArticleView>)
    ensures r.None? <==> forall a :: a in s.articles ==>
      !Addressed(s, a, ownerId, channelPermaName, categoryPermaName, subCategoryPermaName, permaName, culture, now)
    ensures r.Some? ==> exists a :: (a in s.articles &&
      Addressed(s, a, ownerId, channelPermaName, categoryPermaName, subCategoryPermaName, permaName, culture, now) &&
      r.value == ToView(a, ParentsOf(s, a).value))
  {
    var rows := JoinWhere(s.articles, (a: Article) => ParentsOf(s, a),
                          (a: Article, p: Parents) =>
                            AddressKeep(a, p, ownerId, channelPermaName, categoryPermaName, subCategoryPermaName, permaName, culture, now),
                          (a: Article, p: Parents) => ToView(a, p));
    First(rows)
  }

  /** The where clause of GetArticleById: no culture and no window. */
  predicate IdKeep(a: Article, ownerId: string, id: string)
  {
    a.ownerId == ownerId && a.id == id && !a.isDeleted
  }

  /** GetArticleById: the live, joined article with that owner and Id, or null. */
  function GetArticleById(s: Store, ownerId: string, id: string): (r: Option<ArticleView>)
    ensures r.None? <==> forall a :: a in s.articles ==> !(ParentsOf(s, a).Some? && IdKeep(a, ownerId, id))
    ensures r.Some? ==> exists a :: a in s.articles && ParentsOf(s, a).Some? && IdKeep(a, ownerId, id) &&
                                    r.value == ToView(a, ParentsOf(s, a).value)
  {
    var rows := JoinWhere(s.articles, (a: Article) => ParentsOf(s, a),
                          (a: Article, p: Parents) => IdKeep(a, ownerId, id),
                          (a: Article, p: Parents) => ToView(a, p));
    First(rows)
  }

  /** With unique Ids the lookup by Id finds a joined article exactly when
      it is not deleted. */
  lemma ArticleByIdFindsTheRow(s: Store, a: Article)
    requires UniqueBy(s.articles, ArticleKey)
    requires a in s.articles && ParentsOf(s, a).Some?
    ensures !a.isDeleted ==> GetArticleById(s, a.ownerId, a.id) == Some(ToView(a, ParentsOf(s, a).value))
    ensures a.isDeleted ==> GetArticleById(s, a.ownerId, a.id).None?
  {
    var r := GetArticleById(s, a.ownerId, a.id);
    if r.Some? {
      var b :| b in s.articles && ParentsOf(s, b).Some? && IdKeep(b, a.ownerId, a.id) && r.value == ToView(b, ParentsOf(s, b).value);
      UniqueKeyEq(s.articles, ArticleKey, a, b);
    }
  }

  /** IsUniqueArticlePermaName(ownerId, channelId, categoryId,
      subCategoryId, permaName, culture): no article has this perma-name
      under this owner, channel, category, sub-category and culture. */
  function IsUniqueArticlePermaName(articles: seq<Article>, ownerId: string, channelId: string, categoryId: string,
                                    subCategoryId: string, permaName: string, culture: string): (r: bool)
    ensures r <==> forall p :: p in articles ==>
      !(p.permaName == permaName && p.ownerId == ownerId && p.channelId == channelId &&
        p.categoryId == categoryId && p.subCategoryId == subCategoryId && p.culture == culture)
  {
    FirstOrDefault(articles, (p: Article) =>
      p.permaName == permaName && p.ownerId == ownerId && p.channelId == channelId &&
      p.categoryId == categoryId && p.subCategoryId == subCategoryId && p.culture == culture).None?
  }

  /** The reference checks of the upsert, in order: channel, category,
      sub-category, author, each by Id. */
  function ReferenceErrors(s: Store, item: Article): (r: seq<ErrorModel>)
    ensures |r| <= 4
    ensures ChannelNotFound in r <==> FindBy(s.channels, ChannelKey, item.channelId).None?
    ensures CategoryNotFound in r <==> FindBy(s.categories, CategoryKey, item.categoryId).None?
    ensures SubCategoryNotFound in r <==> FindBy(s.subCategories, SubCategoryKey, item.subCategoryId).None?
    ensures AuthorNotFound in r <==> FindBy(s.author, AuthorKey, item.authorId).None?
  {
    CheckRanks();
    var e1 := AddIf([], FindBy(s.channels, ChannelKey, item.channelId).None?, ChannelNotFound);
    var e2 := AddIf(e1, FindBy(s.categories, CategoryKey, item.categoryId).None?, CategoryNotFound);
    var e3 := AddIf(e2, FindBy(s.subCategories, SubCategoryKey, item.subCategoryId).None?, SubCategoryNotFound);
    AddIf(e3, FindBy(s.author, AuthorKey, item.authorId).None?, AuthorNotFound)
  }

  /** The errors come in the order the checks run, and there are no others. */
  lemma {:induction false} ReferenceErrorsInOrder(s: Store, item: Article)
    ensures InCheckOrder(ReferenceErrors(s, item))
    ensures forall e :: e in ReferenceErrors(s, item) ==>
      e == ChannelNotFound || e == CategoryNotFound || e == SubCategoryNotFound || e == AuthorNotFound
  {
    CheckRanks();
    var e1 := AddIf([], FindBy(s.channels, ChannelKey, item.channelId).None?, ChannelNotFound);
    AddIfInOrder([], FindBy(s.channels, ChannelKey, item.channelId).None?, ChannelNotFound);
    var e2 := AddIf(e1, FindBy(s.categories, CategoryKey, item.categoryId).None?, CategoryNotFound);
    AddIfInOrder(e1, FindBy(s.categories, CategoryKey, item.categoryId).None?, CategoryNotFound);
    var e3 := AddIf(e2, FindBy(s.subCategories, SubCategoryKey, item.subCategoryId).None?, SubCategoryNotFound);
    AddIfInOrder(e2, FindBy(s.subCategories, SubCategoryKey, item.subCategoryId).None?, SubCategoryNotFound);
    AddIfInOrder(e3, FindBy(s.author, AuthorKey, item.authorId).None?, AuthorNotFound);
  }

  /** The upsert passes its reference checks exactly when the article
      would survive the lists' inner joins. */
  lemma {:induction false} NoReferenceErrorsMeansJoined(s: Store, item: Article)
    ensures ReferenceErrors(s, item) == [] <==> ParentsOf(s, item).Some?
  {
    var r := ReferenceErrors(s, item);
    if r != [] {
      assert r[0] in r;
    }
  }

  /** The stamps of every write: both epoch fields from GetUnixTime, and Modified. */
  function Restamped(item: Article, now: DateTime, unixTime: DateTime -> int): (r: Article)
    ensures r.expireUnixtime == unixTime(item.expire) && r.publishUnixtime == unixTime(item.publish)
    ensures r.modified == now && r.id == item.id && r.created == item.created
  {
    item.(expireUnixtime := unixTime(item.expire), publishUnixtime := unixTime(item.publish), modified := now)
  }

  /** The four reference checks of the upsert, run against the tables in
      order; each failed check adds its error. Nothing is written. */
  method ValidateReferences(db: CmsDbContext, item: Article) returns (errors: seq<ErrorModel>)
    ensures errors == ReferenceErrors(db.State(), item)
  {
    errors := [];
    var channel := FindBy(db.channels, ChannelKey, item.channelId);
    if channel.None? {
      errors := errors + [ChannelNotFound];
    }

    var category := FindBy(db.categories, CategoryKey, item.categoryId);
    if category.None? {
      errors := errors + [CategoryNotFound];
    }

    var subCategory := FindBy(db.subCategories, SubCategoryKey, item.subCategoryId);
    if subCategory.None? {
      errors := errors + [SubCategoryNotFound];
    }

    var author := FindBy(db.author, AuthorKey, item.authorId);
    if author.None? {
      errors := errors + [AuthorNotFound];
    }
  }

  /** UpsertArticleAsync. Any reference error stops it with the table
      untouched. An item whose Id is not in the table is inserted, an
      existing one replaces its row. */
  method UpsertArticle(db: CmsDbContext, item: Article, now: DateTime, unixTime: DateTime -> int,
                       saveFails: bool, failureMessage: string)
    returns (response: UpsertResponseModel<Article>)
    requires db.Valid()
    modifies db
    ensures db.Valid()
    ensures db.channels == old(db.channels) && db.categories == old(db.categories)
    ensures db.subCategories == old(db.subCategories) && db.author == old(db.author)
    ensures ReferenceErrors(old(db.State()), item) != [] ==>
      Rejected(response, ReferenceErrors(old(db.State()), item), item, old(db.articles), db.articles)
    ensures ReferenceErrors(old(db.State()), item) == [] && FindBy(old(db.articles), ArticleKey, item.id).None? ==>
      InsertOutcome(response, item, now, unixTime, saveFails, failureMessage, old(db.articles), db.articles)
    ensures ReferenceErrors(old(db.State()), item) == [] && FindBy(old(db.articles), ArticleKey, item.id).Some? ==>
      UpdateOutcome(response, item, FindBy(old(db.articles), ArticleKey, item.id).value, now, unixTime,
                    saveFails, failureMessage, old(db.articles), db.articles)
  {
    var errors := ValidateReferences(db, item);
    if errors != [] {
      response := UpsertResponseModel(BadRequest, errors, item);
    } else {
      var original := FindBy(db.articles, ArticleKey, item.id);
      if original.None? {
        response := InsertArticle(db, item, now, unixTime, saveFails, failureMessage);
      } else {
        response := UpdateArticle(db, item, original.value, now, unixTime, saveFails, failureMessage);
      }
    }
  }

  /** The insert path: the guard runs with its arguments in order; if it
      passes, both epoch fields, Modified and Created are stamped and the
      item is added. A rejected item comes back unstamped. */
  ghost predicate InsertOutcome(response: UpsertResponseModel<Article>, item: Article, now: DateTime, unixTime: DateTime -> int,
                                saveFails: bool, failureMessage: string, before: seq<Article>, after: seq<Article>)
  {
    var stamped := Restamped(item, now, unixTime).(created := now);
    if IsUniqueArticlePermaName(before, item.ownerId, item.channelId, item.categoryId, item.subCategoryId,
                                item.permaName, item.culture) then
      Written(response, stamped, saveFails, failureMessage, before, after, before + [stamped])
    else
      Rejected(response, [NotUnique], item, before, after)
  }

  /** The update path: only a changed perma-name runs the guard, with
      ownerId and permaName swapped; otherwise both epoch fields and
      Modified are stamped and the item replaces the row with its Id. */
  ghost predicate UpdateOutcome(response: UpsertResponseModel<Article>, item: Article, original: Article, now: DateTime,
                                unixTime: DateTime -> int, saveFails: bool, failureMessage: string,
                                before: seq<Article>, after: seq<Article>)
  {
    var stamped := Restamped(item, now, unixTime);
    if item.permaName != original.permaName &&
       !IsUniqueArticlePermaName(before, item.permaName, item.channelId, item.categoryId, item.subCategoryId,
                                 item.ownerId, item.culture) then
      Rejected(response, [NotUnique], item, before, after)
    else
      Written(response, stamped, saveFails, failureMessage, before, after, ReplaceBy(before, ArticleKey, stamped))
  }

  /** The "Insert" branch of UpsertArticleAsync. */
  method InsertArticle(db: CmsDbContext, item: Article, now: DateTime, unixTime: DateTime -> int,
                       saveFails: bool, failureMessage: string)
    returns (response: UpsertResponseModel<Article>)
    requires db.Valid()
    requires FindBy(db.articles, ArticleKey, item.id).None?
    modifies db
    ensures db.Valid()
    ensures db.channels == old(db.channels) && db.categories == old(db.categories)
    ensures db.subCategories == old(db.subCategories) && db.author == old(db.author)
    ensures InsertOutcome(response, item, now, unixTime, saveFails, failureMessage, old(db.articles), db.articles)
  {
    var isValid := true;
    var responseStatus := Success;
    var errors: seq<ErrorModel> := [];
    var item := item;

    if IsUniqueArticlePermaName(db.articles, item.ownerId, item.channelId, item.categoryId, item.subCategoryId,
                                item.permaName, item.culture) {
      item := Restamped(item, now, unixTime).(created := now);
      var failure := SaveArticle(db, item, true, saveFails, failureMessage);
      isValid := failure == [];
      errors := errors + failure;
    } else {
      isValid := false;
      errors := errors + [NotUnique];
    }

    if !isValid {
      responseStatus := BadRequest;
    }
    response := UpsertResponseModel(responseStatus, errors, item);
  }

  /** The "Upsert" branch of UpsertArticleAsync, given the row with the item's Id. */
  method UpdateArticle(db: CmsDbContext, item: Article, original: Article, now: DateTime, unixTime: DateTime -> int,
                       saveFails: bool, failureMessage: string)
    returns (response: UpsertResponseModel<Article>)
    requires db.Valid()
    requires FindBy(db.articles, ArticleKey, item.id).Some?
    modifies db
    ensures db.Valid()
    ensures db.channels == old(db.channels) && db.categories == old(db.categories)
    ensures db.subCategories == old(db.subCategories) && db.author == old(db.author)
    ensures UpdateOutcome(response, item, original, now, unixTime, saveFails, failureMessage, old(db.articles), db.articles)
  {
    var isValid := true;
    var responseStatus := Success;
    var errors: seq<ErrorModel> := [];
    var item := item;
    ghost var stamped := Restamped(item, now, unixTime);

    if item.permaName != original.permaName &&
       !IsUniqueArticlePermaName(db.articles, item.permaName, item.channelId, item.categoryId, item.subCategoryId,
                                 item.ownerId, item.culture) {
      isValid := false;
      errors := errors + [NotUnique];
      assert Rejected(UpsertResponseModel(BadRequest, errors, item), [NotUnique], item, old(db.articles), db.articles);
    } else {
      item := Restamped(item, now, unixTime);
      var failure := SaveArticle(db, item, false, saveFails, failureMessage);
      isValid := failure == [];
      errors := errors + failure;
      assert item == stamped;
      assert Written(UpsertResponseModel(if isValid then Success else BadRequest, errors, item), stamped, saveFails,
                     failureMessage, old(db.articles), db.articles, ReplaceBy(old(db.articles), ArticleKey, stamped));
    }

    if !isValid {
      responseStatus := BadRequest;
    }
    response := UpsertResponseModel(responseStatus, errors, item);
  }

  /** Articles.Add or Articles.Update followed by SaveChangesAsync inside
      its try/catch: a throwing save leaves the table as it was and yields
      the code-500 error with the exception message. */
  method SaveArticle(db: CmsDbContext, item: Article, insert: bool, saveFails: bool, failureMessage: string)
    returns (failure: seq<ErrorModel>)
    requires db.Valid()
    requires insert <==> FindBy(db.articles, ArticleKey, item.id).None?
    modifies db
    ensures db.Valid()
    ensures db.channels == old(db.channels) && db.categories == old(db.categories)
    ensures db.subCategories == old(db.subCategories) && db.author == old(db.author)
    ensures saveFails ==> failure == [StoreFault(failureMessage)] && db.articles == old(db.articles)
    ensures !saveFails ==> failure == []
    ensures !saveFails ==>
      db.articles == if insert then old(db.articles) + [item] else ReplaceBy(old(db.articles), ArticleKey, item)
  {
    if saveFails {
      failure := [StoreFault(failureMessage)];
    } else if insert {
      AppendUnique(db.articles, ArticleKey, item);
      db.articles := db.articles + [item];
      failure := [];
    } else {
      ReplaceUnique(db.articles, ArticleKey, item);
      db.articles := ReplaceBy(db.articles, ArticleKey, item);
      failure := [];
    }
  }

  /** DeletePhysicalArticleAsync: removes the row with that Id and returns it.
      Remove(null) throws, so the Id must be present. */
  method DeletePhysicalArticle(db: CmsDbContext, id: string) returns (deleted: Article)
    requires db.Valid()
    requires FindBy(db.articles, ArticleKey, id).Some?
    modifies db
    ensures db.Valid()
    ensures db.channels == old(db.channels) && db.categories == old(db.categories)
    ensures db.subCategories == old(db.subCategories) && db.author == old(db.author)
    ensures deleted in old(db.articles) && deleted.id == id
    ensures db.articles == RemoveBy(old(db.articles), ArticleKey, id)
    ensures |db.articles| == |old(db.articles)| - 1
    ensures forall a :: a in db.articles <==> a in old(db.articles) && a.id != id
  {
    var original := FindBy(db.articles, ArticleKey, id);
    deleted := original.value;
    RemoveByUnique(db.articles, ArticleKey, id);
    RemoveByCount(db.articles, ArticleKey, id);
    db.articles := RemoveBy(db.articles, ArticleKey, id);
  }

  /** DeleteLogicalArticleAsync: flags the row with that Id as deleted,
      stamps Modified, writes it back and returns it. A missing Id is a
      null dereference, so the Id must be present. */
  method DeleteLogicalArticle(db: CmsDbContext, id: string, now: DateTime) returns (deleted: Article)
    requires db.Valid()
    requires FindBy(db.articles, ArticleKey, id).Some?
    modifies db
    ensures db.Valid()
    ensures db.channels == old(db.channels) && db.categories == old(db.categories)
    ensures db.subCategories == old(db.subCategories) && db.author == old(db.author)
    ensures deleted == FindBy(old(db.articles), ArticleKey, id).value.(isDeleted := true, modified := now)
    ensures db.articles == ReplaceBy(old(db.articles), ArticleKey, deleted)
  {
    var original := FindBy(db.articles, ArticleKey, id);
    deleted := original.value.(isDeleted := true, modified := now);
    ReplaceUnique(db.articles, ArticleKey, deleted);
    db.articles := ReplaceBy(db.articles, ArticleKey, deleted);
  }

  /** After a logical delete the lookup by Id no longer finds the article,
      for any owner, while the row stays in the table. */
  lemma {:induction false} LogicallyDeletedIsHidden(s: Store, id: string, now: DateTime, ownerId: string)
    requires FindBy(s.articles, ArticleKey, id).Some?
    ensures var d := FindBy(s.articles, ArticleKey, id).value.(isDeleted := true, modified := now);
      var t := s.(articles := ReplaceBy(s.articles, ArticleKey, d));
      |t.articles| == |s.articles| && d in t.articles && GetArticleById(t, ownerId, id).None?
  {
    var d := FindBy(s.articles, ArticleKey, id).value.(isDeleted := true, modified := now);
    var t := s.(articles := ReplaceBy(s.articles, ArticleKey, d));
    ReplaceByAt(s.articles, ArticleKey, d);
    forall a | a in t.articles
      ensures !IdKeep(a, ownerId, id)
    {
      var i :| 0 <= i < |t.articles| && t.articles[i] == a;
      assert a == if s.articles[i].id == id then d else s.articles[i];
    }
    var k :| 0 <= k < |s.articles| && s.articles[k] == FindBy(s.articles, ArticleKey, id).value;
    assert t.articles[k] == d;
  }

  /** After a physical delete neither lookup by Id finds the article. */
  lemma PhysicallyDeletedIsGone(s: Store, id: string, ownerId: string)
    ensures GetArticleById(s.(articles := RemoveBy(s.articles, ArticleKey, id)), ownerId, id).None?
  {
  }
}
