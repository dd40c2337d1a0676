/** CmsChannelServices: the channel list, the four single-channel lookups,
    the channel upsert and its perma-name guard. */
module ChannelServices {
  import opened Seqs
  import opened Models
  import opened Pagination
  import opened Data

  /** How many articles name channel `id`, in every culture: the lookups'
      g.Select(g => g.Culture == culture).Count() projects each article to
      a bool and counts the projections, so the culture test has no effect. */
  function ArticlesOfChannel(articles: seq<Article>, id: string): (n: nat)
    ensures n <= |articles|
    ensures n == 0 <==> forall a :: a in articles ==> a.channelId != id
    ensures n == |set i | 0 <= i < |articles| && articles[i].channelId == id|
  {
    var names := (a: Article) => a.channelId == id;
    CountIsPositions(articles, names);
    assert Positions(articles, names) == set i | 0 <= i < |articles| && articles[i].channelId == id;
    Count(articles, names)
  }

  /** How many articles name channel `id` and are written in `culture`:
      the list's g.Count(g => g.Culture == culture). */
  function ArticlesOfChannelInCulture(articles: seq<Article>, id: string, culture: string): (n: nat)
    ensures n <= |articles|
    ensures n == 0 <==> forall a :: a in articles ==> !(a.channelId == id && a.culture == culture)
    ensures n == |set i | 0 <= i < |articles| && articles[i].channelId == id && articles[i].culture == culture|
  {
    var names := (a: Article) => a.channelId == id && a.culture == culture;
    CountIsPositions(articles, names);
    assert Positions(articles, names) ==
      set i | 0 <= i < |articles| && articles[i].channelId == id && articles[i].culture == culture;
    Count(articles, names)
  }

  /** The list's count never exceeds the lookups' count for the same channel. */
  lemma CultureCountAtMostTotal(articles: seq<Article>, id: string, culture: string)
    ensures ArticlesOfChannelInCulture(articles, id, culture) <= ArticlesOfChannel(articles, id)
  {
    CountMono(articles, (a: Article) => a.channelId == id && a.culture == culture, (a: Article) => a.channelId == id);
  }

  /** The lookups' count is the list's count in `culture` plus the count of
      the channel's articles in every other culture. */
  lemma CultureCountsAddUp(articles: seq<Article>, id: string, culture: string)
    ensures ArticlesOfChannel(articles, id) ==
      ArticlesOfChannelInCulture(articles, id, culture) +
      |set i | 0 <= i < |articles| && articles[i].channelId == id && articles[i].culture != culture|
  {
    var inCulture := set i | 0 <= i < |articles| && articles[i].channelId == id && articles[i].culture == culture;
    var elsewhere := set i | 0 <= i < |articles| && articles[i].channelId == id && articles[i].culture != culture;
    assert (set i | 0 <= i < |articles| && articles[i].channelId == id) == inCulture + elsewhere;
    assert inCulture * elsewhere == {};
  }

  /** One article of the channel in "en" and one in "fr": a lookup reports
      two, the "en" list reports one. */
  lemma TwoCulturesCounted(en: Article, fr: Article)
    requires en.channelId == fr.channelId && en.culture == "en" && fr.culture == "fr"
    ensures ArticlesOfChannel([en, fr], en.channelId) == 2
    ensures ArticlesOfChannelInCulture([en, fr], en.channelId, "en") == 1
  {
    var articles := [en, fr];
    assert (set i | 0 <= i < |articles| && articles[i].channelId == en.channelId) == {0, 1};
    assert (set i | 0 <= i < |articles| && articles[i].channelId == en.channelId && articles[i].culture == "en") == {0};
  }

  /** The rows GetChannels builds before paging: every channel of the owner,
      deleted ones included, in store order, with its article count in
      `culture`; a non-empty keyword keeps the channels whose Title contains it. */
  function ChannelListRows(channels: seq<Channel>, articles: seq<Article>, ownerId: string, keyword: string, culture: string)
    : (r: seq<ArticleChannelView>)
    ensures |r| <= |channels|
    ensures forall v :: v in r <==>
      v.channel in channels && v.channel.ownerId == ownerId && MatchesKeyword(v.channel.title, keyword) &&
      v.count == ArticlesOfChannelInCulture(articles, v.channel.id, culture) && v.culture == culture
  {
    var owned := Where(channels, (c: Channel) => c.ownerId == ownerId);
    var items := Select(owned, (c: Channel) => ArticleChannelView(c, ArticlesOfChannelInCulture(articles, c.id, culture), culture));
    if keyword == "" then items
    else Where(items, (v: ArticleChannelView) => Contains(v.channel.title, keyword))
  }

  /** The list's total: one row per owned channel whose Title passes the
      keyword, counted by position in the table. */
  lemma ChannelListRowsCount(channels: seq<Channel>, articles: seq<Article>, ownerId: string, keyword: string, culture: string)
    ensures |ChannelListRows(channels, articles, ownerId, keyword, culture)| ==
      |set i | 0 <= i < |channels| && channels[i].ownerId == ownerId && MatchesKeyword(channels[i].title, keyword)|
  {
    var owns := (c: Channel) => c.ownerId == ownerId;
    var view := (c: Channel) => ArticleChannelView(c, ArticlesOfChannelInCulture(articles, c.id, culture), culture);
    var titled := (v: ArticleChannelView) => Contains(v.channel.title, keyword);
    var listed := (c: Channel) => c.ownerId == ownerId && MatchesKeyword(c.title, keyword);
    if keyword == "" {
      SelectWhereLength(channels, owns, view, listed);
    } else {
      WhereSelectWhereLength(channels, owns, view, titled, listed);
    }
    assert Positions(channels, listed) ==
      set i | 0 <= i < |channels| && channels[i].ownerId == ownerId && MatchesKeyword(channels[i].title, keyword);
  }

  /** GetChannels: the owner's channels, one page of them, with the total
      count and the page count. The null test on the query result can never
      fire and its error is never returned, so the model has no such branch. */
  function GetChannels(s: Store, ownerId: string, keyword: string, culture: string, currentPage: int, itemsPerPage: int)
    : (r: PaginationModel<ArticleChannelView>)
    requires |ChannelListRows(s.channels, s.articles, ownerId, keyword, culture)| > 0 ==> itemsPerPage != 0
    ensures r.errors == [] && r.currentPage == currentPage && r.itemsPerPage == itemsPerPage
    ensures r.totalItems == |ChannelListRows(s.channels, s.articles, ownerId, keyword, culture)|
    ensures r.items == PageSlice(ChannelListRows(s.channels, s.articles, ownerId, keyword, culture), currentPage, itemsPerPage)
    ensures r.totalItems == 0 ==> r.totalPages == 0 && r.items == []
    ensures r.totalItems > 0 && itemsPerPage > 0 ==>
      r.totalPages >= 1 && (r.totalPages - 1) * itemsPerPage <= r.totalItems < r.totalPages * itemsPerPage
    ensures itemsPerPage > 0 ==> |r.items| <= itemsPerPage
    ensures forall v :: v in r.items ==>
      v.channel in s.channels && v.channel.ownerId == ownerId && MatchesKeyword(v.channel.title, keyword) &&
      v.count == ArticlesOfChannelInCulture(s.articles, v.channel.id, culture) && v.culture == culture
  {
    var rows := ChannelListRows(s.channels, s.articles, ownerId, keyword, culture);
    var r := Paginate(rows, currentPage, itemsPerPage);
    assert forall v :: v in r.items ==> v in rows;
    r
  }

  /** The projection the lookups share: the channel, its all-culture
      article count and the culture argument. */
  function LookupView(articles: seq<Article>, c: Channel, culture: string): ArticleChannelView
  {
    ArticleChannelView(c, ArticlesOfChannel(articles, c.id), culture)
  }

  /** GetChannelByPermaName: the first non-deleted channel of the owner with that perma-name. */
  function GetChannelByPermaName(s: Store, ownerId: string, permaName: string, culture: string): (r: Option<ArticleChannelView>)
    ensures r.None? <==> forall c :: c in s.channels ==> !(c.ownerId == ownerId && c.permaName == permaName && !c.isDeleted)
    ensures r.Some? ==> (r.value.channel in s.channels && r.value.channel.ownerId == ownerId &&
      r.value.channel.permaName == permaName && !r.value.channel.isDeleted &&
      r.value.count == ArticlesOfChannel(s.articles, r.value.channel.id) && r.value.culture == culture)
  {
    var c := FirstOrDefault(s.channels, (c: Channel) => c.ownerId == ownerId && c.permaName == permaName && !c.isDeleted);
    if c.None? then None else Some(LookupView(s.articles, c.value, culture))
  }

  /** GetChannelById: the first non-deleted channel of the owner with that id. */
  function GetChannelById(s: Store, ownerId: string, id: string, culture: string): (r: Option<ArticleChannelView>)
    ensures r.None? <==> forall c :: c in s.channels ==> !(c.ownerId == ownerId && c.id == id && !c.isDeleted)
    ensures r.Some? ==> (r.value.channel in s.channels && r.value.channel.ownerId == ownerId &&
      r.value.channel.id == id && !r.value.channel.isDeleted &&
      r.value.count == ArticlesOfChannel(s.articles, id) && r.value.culture == culture)
  {
    var c := FirstOrDefault(s.channels, (c: Channel) => c.ownerId == ownerId && c.id == id && !c.isDeleted);
    if c.None? then None else Some(LookupView(s.articles, c.value, culture))
  }

  /** GetChannelByPermaNameAdmin: as GetChannelByPermaName, deleted channels included. */
  function GetChannelByPermaNameAdmin(s: Store, ownerId: string, permaName: string, culture: string): (r: Option<ArticleChannelView>)
    ensures r.None? <==> forall c :: c in s.channels ==> !(c.ownerId == ownerId && c.permaName == permaName)
    ensures r.Some? ==> (r.value.channel in s.channels && r.value.channel.ownerId == ownerId &&
      r.value.channel.permaName == permaName &&
      r.value.count == ArticlesOfChannel(s.articles, r.value.channel.id) && r.value.culture == culture)
  {
    var c := FirstOrDefault(s.channels, (c: Channel) => c.ownerId == ownerId && c.permaName == permaName);
    if c.None? then None else Some(LookupView(s.articles, c.value, culture))
  }

  /** GetChannelByIdAdmin: as GetChannelById, deleted channels included. */
  function GetChannelByIdAdmin(s: Store, ownerId: string, id: string, culture: string): (r: Option<ArticleChannelView>)
    ensures r.None? <==> forall c :: c in s.channels ==> !(c.ownerId == ownerId && c.id == id)
    ensures r.Some? ==> (r.value.channel in s.channels && r.value.channel.ownerId == ownerId &&
      r.value.channel.id == id &&
      r.value.count == ArticlesOfChannel(s.articles, id) && r.value.culture == culture)
  {
    var c := FirstOrDefault(s.channels, (c: Channel) => c.ownerId == ownerId && c.id == id);
    if c.None? then None else Some(LookupView(s.articles, c.value, culture))
  }

  /** With unique channel ids, the lookup by id returns exactly that channel
      when it belongs to the owner, and the admin lookup returns it whether
      or not it is deleted. */
  lemma {:induction false} LookupByIdFindsTheRow(s: Store, c: Channel, culture: string)
    requires UniqueBy(s.channels, ChannelKey)
    requires c in s.channels
    ensures GetChannelByIdAdmin(s, c.ownerId, c.id, culture) == Some(LookupView(s.articles, c, culture))
    ensures !c.isDeleted ==> GetChannelById(s, c.ownerId, c.id, culture) == Some(LookupView(s.articles, c, culture))
    ensures c.isDeleted ==> GetChannelById(s, c.ownerId, c.id, culture).None?
  {
    var admin := GetChannelByIdAdmin(s, c.ownerId, c.id, culture);
    UniqueKeyEq(s.channels, ChannelKey, admin.value.channel, c);
    if !c.isDeleted {
      var pub := GetChannelById(s, c.ownerId, c.id, culture);
      UniqueKeyEq(s.channels, ChannelKey, pub.value.channel, c);
    } else {
      forall d | d in s.channels && d.ownerId == c.ownerId && d.id == c.id
        ensures d.isDeleted
      {
        UniqueKeyEq(s.channels, ChannelKey, d, c);
      }
    }
  }

  /** IsUniqueArticleChannelPermaName(ownerId, permaName): no channel has
      this owner and this perma-name. */
  function IsUniqueArticleChannelPermaName(channels: seq<Channel>, ownerId: string, permaName: string): (r: bool)
    ensures r <==> forall c :: c in channels ==> !(c.permaName == permaName && c.ownerId == ownerId)
  {
    FirstOrDefault(channels, (c: Channel) => c.permaName == permaName && c.ownerId == ownerId).None?
  }

  /** The upsert passes (PermaName, OwnerId) into the guard's (ownerId,
      permaName) slots, so what it actually asks is whether some channel is
      owned by a tenant named like the new perma-name and has a perma-name
      equal to the new owner id. A channel with the same owner and the same
      perma-name does not make it fail. */
  lemma SwappedGuardIgnoresSameKey(channels: seq<Channel>, item: Channel)
    requires forall c :: c in channels ==> c.ownerId != item.permaName
    ensures IsUniqueArticleChannelPermaName(channels, item.permaName, item.ownerId)
  {
  }

  /** UpsertArticleChannelAsync. An item whose Id is not in the table is
      inserted with Created and Modified stamped; otherwise the row with that
      Id is replaced, with Modified stamped only when the perma-name changed.
      The guard runs, with its arguments swapped, on insert and on a changed
      perma-name. `saveFails` and `failureMessage` stand for a throwing
      SaveChangesAsync and its exception message. */
  method UpsertArticleChannel(db: CmsDbContext, item: Channel, now: DateTime, saveFails: bool, failureMessage: string)
    returns (response: UpsertResponseModel<Channel>)
    requires db.Valid()
    modifies db
    ensures db.Valid()
    ensures db.articles == old(db.articles) && db.categories == old(db.categories)
    ensures db.subCategories == old(db.subCategories) && db.author == old(db.author)
    ensures FindBy(old(db.channels), ChannelKey, item.id).None? ==>
      if IsUniqueArticleChannelPermaName(old(db.channels), item.permaName, item.ownerId) then
        Written(response, item.(created := now, modified := now), saveFails, failureMessage,
                old(db.channels), db.channels, old(db.channels) + [item.(created := now, modified := now)])
      else
        Rejected(response, [NotUnique], item, old(db.channels), db.channels)
    ensures FindBy(old(db.channels), ChannelKey, item.id).Some? &&
            item.permaName != FindBy(old(db.channels), ChannelKey, item.id).value.permaName ==>
      if IsUniqueArticleChannelPermaName(old(db.channels), item.permaName, item.ownerId) then
        Written(response, item.(modified := now), saveFails, failureMessage,
                old(db.channels), db.channels, ReplaceBy(old(db.channels), ChannelKey, item.(modified := now)))
      else
        Rejected(response, [NotUnique], item, old(db.channels), db.channels)
    ensures FindBy(old(db.channels), ChannelKey, item.id).Some? &&
            item.permaName == FindBy(old(db.channels), ChannelKey, item.id).value.permaName ==>
      Written(response, item, saveFails, failureMessage,
              old(db.channels), db.channels, ReplaceBy(old(db.channels), ChannelKey, item))
  {
    var isValid := true;
    var responseStatus := Success;
    var errors, written := WriteChannel(db, item, now, saveFails, failureMessage);
    isValid := errors == [];

    if !isValid {
      responseStatus := BadRequest;
    }
    response := UpsertResponseModel(responseStatus, errors, written);
  }

  /** The lookup, guard and save of the upsert. An unknown Id is stamped
      with Created and Modified and inserted when the guard passes; a known
      one is replaced, stamped with Modified only for a changed perma-name,
      for which the guard runs first. `written` is the item echoed back. */
  method WriteChannel(db: CmsDbContext, item: Channel, now: DateTime, saveFails: bool, failureMessage: string)
    returns (errors: seq<ErrorModel>, written: Channel)
    requires db.Valid()
    modifies db
    ensures db.Valid()
    ensures db.articles == old(db.articles) && db.categories == old(db.categories)
    ensures db.subCategories == old(db.subCategories) && db.author == old(db.author)
    ensures FindBy(old(db.channels), ChannelKey, item.id).None? ==>
      if IsUniqueArticleChannelPermaName(old(db.channels), item.permaName, item.ownerId) then
        written == item.(created := now, modified := now) &&
        Stored(errors, saveFails, failureMessage, old(db.channels), db.channels, old(db.channels) + [written])
      else
        written == item && errors == [NotUnique] && db.channels == old(db.channels)
    ensures FindBy(old(db.channels), ChannelKey, item.id).Some? &&
            item.permaName != FindBy(old(db.channels), ChannelKey, item.id).value.permaName ==>
      if IsUniqueArticleChannelPermaName(old(db.channels), item.permaName, item.ownerId) then
        written == item.(modified := now) &&
        Stored(errors, saveFails, failureMessage, old(db.channels), db.channels, ReplaceBy(old(db.channels), ChannelKey, written))
      else
        written == item && errors == [NotUnique] && db.channels == old(db.channels)
    ensures FindBy(old(db.channels), ChannelKey, item.id).Some? &&
            item.permaName == FindBy(old(db.channels), ChannelKey, item.id).value.permaName ==>
      written == item &&
      Stored(errors, saveFails, failureMessage, old(db.channels), db.channels, ReplaceBy(old(db.channels), ChannelKey, item))
  {
    written := item;
    var original := FindBy(db.channels, ChannelKey, item.id);
    if original.None? {
      if IsUniqueArticleChannelPermaName(db.channels, item.permaName, item.ownerId) {
        written := item.(created := now, modified := now);
        errors := SaveChannel(db, written, true, saveFails, failureMessage);
      } else {
        errors := [NotUnique];
      }
    } else if item.permaName != original.value.permaName {
      if IsUniqueArticleChannelPermaName(db.channels, item.permaName, item.ownerId) {
        written := item.(modified := now);
        errors := SaveChannel(db, written, false, saveFails, failureMessage);
      } else {
        errors := [NotUnique];
      }
    } else {
      errors := SaveChannel(db, item, false, saveFails, failureMessage);
    }
  }

  /** Channels.Add or Channels.Update followed by SaveChangesAsync inside
      its try/catch: a throwing save leaves the table as it was and yields
      the code-500 error with the exception message. */
  method SaveChannel(db: CmsDbContext, item: Channel, insert: bool, saveFails: bool, failureMessage: string)
    returns (failure: seq<ErrorModel>)
    requires db.Valid()
    requires insert <==> FindBy(db.channels, ChannelKey, item.id).None?
    modifies db
    ensures db.Valid()
    ensures db.articles == old(db.articles) && db.categories == old(db.categories)
    ensures db.subCategories == old(db.subCategories) && db.author == old(db.author)
    ensures saveFails ==> failure == [StoreFault(failureMessage)] && db.channels == old(db.channels)
    ensures !saveFails ==> failure == []
    ensures !saveFails ==>
      db.channels == if insert then old(db.channels) + [item] else ReplaceBy(old(db.channels), ChannelKey, item)
  {
    if saveFails {
      failure := [StoreFault(failureMessage)];
    } else if insert {
      AppendUnique(db.channels, ChannelKey, item);
      db.channels := db.channels + [item];
      failure := [];
    } else {
      ReplaceUnique(db.channels, ChannelKey, item);
      db.channels := ReplaceBy(db.channels, ChannelKey, item);
      failure := [];
    }
  }

  /** After a successful insert the admin lookup by id finds the new row. */
  lemma InsertedChannelIsFound(s: Store, item: Channel, culture: string)
    requires UniqueBy(s.channels, ChannelKey)
    requires FindBy(s.channels, ChannelKey, item.id).None?
    ensures GetChannelByIdAdmin(s.(channels := s.channels + [item]), item.ownerId, item.id, culture)
            == Some(LookupView(s.articles, item, culture))
  {
    AppendUnique(s.channels, ChannelKey, item);
    LookupByIdFindsTheRow(s.(channels := s.channels + [item]), item, culture);
  }

  /** After a successful update the admin lookup by id finds the new row. */
  lemma UpdatedChannelIsFound(s: Store, item: Channel, culture: string)
    requires UniqueBy(s.channels, ChannelKey)
    requires FindBy(s.channels, ChannelKey, item.id).Some?
    ensures GetChannelByIdAdmin(s.(channels := ReplaceBy(s.channels, ChannelKey, item)), item.ownerId, item.id, culture)
            == Some(LookupView(s.articles, item, culture))
  {
    ReplaceUnique(s.channels, ChannelKey, item);
    LookupByIdFindsTheRow(s.(channels := ReplaceBy(s.channels, ChannelKey, item)), item, culture);
  }

  /** Two upserts of channels with the same owner and perma-name (and
      different ids) both succeed: the swapped guard does not stop the second. */
  method DuplicatePermaNameAccepted() returns (db: CmsDbContext)
    ensures fresh(db)
    ensures |db.channels| == 2
    ensures db.channels[0].ownerId == db.channels[1].ownerId && db.channels[0].permaName == db.channels[1].permaName
  {
    db := new CmsDbContext();
    var first := Channel("c1", "News", "news", 0, "News", "", "tenant", 0, 0, false, true);
    var second := first.(id := "c2");
    var r1 := UpsertArticleChannel(db, first, 10, false, "");
    assert db.channels == [first.(created := 10, modified := 10)];
    var r2 := UpsertArticleChannel(db, second, 20, false, "");
    assert r2.responseStatus == Success;
  }
}
