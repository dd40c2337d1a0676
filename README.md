# A verified model of the CMS services

This project models the five service classes of a tenant-scoped content
management library: channels, categories, sub-categories, authors and
articles, all kept per tenant (`OwnerId`) in one database context. Each
service offers paged lists and single-row lookups built from LINQ
queries with inner joins on parent ids. Each also has an upsert that
collects errors, picks insert or update, runs a perma-name uniqueness
guard and reports "Success" or "Bad Request". The upserts differ in two
ways:

- Parent checks: the category upsert checks the channel, the
  sub-category upsert checks the channel and the category, and the
  article upsert checks all four parents. The channel and author upserts
  check no parent.
- Timestamps: the sub-category, author and article upserts stamp every
  write. The channel upsert stamps inserts and changed-perma updates, but
  writes an unchanged-perma update as given. The category upsert stamps
  nothing.

The article service also offers a physical and a logical delete.

The project is split into these modules:

- `Seqs` (seqs.dfy): the LINQ operators the queries use, as functions over
  sequences. These are `FirstOrDefault`, `Where`, `Select`, `Count`,
  `Skip`, `Take`, `OrderByDescending` and `Contains`. Also here: the inner
  join `JoinWhere`, with the parent found by primary key, and the
  table-by-key operations (`FindBy`, `ReplaceBy`, `RemoveBy`) with their
  lemmas. A count is tied to its meaning by `CountIsPositions`: `Count`
  is the number of positions whose element passes the test.
- `Models` (models.dfy): the records, view models, response models and
  error constants, plus the outcome predicates `Rejected`, `Stored` and
  `Written` used in the upsert contracts.
- `Pagination` (pagination.dfy): the page-count formula and the Skip/Take
  slicing shared by the channel, category, sub-category and author lists.
- `Data` (data.dfy): class `CmsDbContext`, which holds one `seq` per
  table. `Valid()` means every table keeps its primary key unique.
- `ChannelServices`, `CategoryServices`, `SubCategoryServices`,
  `AuthorServices` and `ArticleServices`: one module per service class.

Queries are pure functions of a `Store` value (the tables as a query
reads them). Upserts and deletes are methods that modify a
`CmsDbContext`. The store's save is a separate method (`SaveChannel`,
`SaveCategory` and so on). The clock, the epoch conversion and a failing
`SaveChangesAsync` are parameters:

- `now` is `DateTime.Now`, or the current epoch in the article queries;
- `unixTime` is `DateTimeHelpers.GetUnixTime`;
- `saveFails` and `failureMessage` stand for an exception thrown by the
  save and its message.

Behaviour modelled as written:

- **Swapped guard arguments.**
  - The channel, category, sub-category and author upserts, and the
    article update with a changed perma-name, pass `(PermaName, OwnerId)`
    into the guard's `(ownerId, permaName)` parameters. The contracts
    state that call as it is written.
  - `ChannelServices.DuplicatePermaNameAccepted` shows two channels with
    the same owner and perma-name both accepted.
  - `ChannelServices.SwappedGuardIgnoresSameKey` shows that the guard
    passes whenever no row's owner equals the item's perma-name.
- **Article insert guard.** The article insert is the only call that
  passes the guard arguments in order.
- **Discarded paging.** The article lists call `Skip` and `Take` but drop
  the results. Their `Items` is the whole narrowed set, ordered by
  `PublishUnixtime` descending, whatever the page.
- **Null channel Id.** The public article list always narrows by the
  channel Id. When no channel is named, that is the Id of a blank
  channel (null), so the list is empty (`ArticleServices.PublicListNeedsAChannel`).
- **Author lookup by perma-name.** The author upsert finds the existing
  row by perma-name and owner, not by Id. Its changed-perma branch is
  therefore unreachable.
  - The `Update` writes whichever row has the item's Id.
  - `AuthorServices.UpdateOverwritesAnotherAuthor` shows this leaving two
    authors with the same perma-name.
- **Culture counts.** Only the channel list counts articles of the
  requested culture. Every other `Count` counts all of the row's articles
  in any culture.
- **Keyword on the joined row.** The category and sub-category lists run
  their keyword `Where` after the join, on the view's Title, which is the
  row's own Title. `CategoryServices.CategoryRows` and
  `SubCategoryServices.Rows` test the keyword inside the join's filter.
  `Seqs.WhereAfterJoin` shows the two forms give the same sequence.

## Model

| member | source | states |
|---|---|---|
| Pagination.TotalPages | Services/CmsChannelServices.cs:81-84 | no items gives 0 pages; otherwise, for a positive size, at least one page, and (pages - 1) * size <= items < pages * size |
| Pagination.Shred | Services/CmsChannelServices.cs:85-87 | Skip((page - 1) * size) then Take(size) is the slice between the clamped start and end positions |
| Pagination.Paginate | Services/CmsChannelServices.cs:77-97 | the envelope: total items, TotalPages, the page slice (only when there are items), at most `size` items for a positive size, each item from the list, no errors |
| Pagination.PageBeyondEndIsEmpty | Services/CmsChannelServices.cs:81-88 | a page number past TotalPages yields no items while the total still counts the whole list |
| Pagination.ExactMultipleAnnouncesEmptyPage | Services/CmsChannelServices.cs:83 | when the count is a multiple of the page size, the last announced page is empty |
| Pagination.PageItems | Services/CmsChannelServices.cs:86-87 | page k covers positions (k - 1) * size to k * size, cut at the end |
| Pagination.PagesUpToPrefix | Services/CmsChannelServices.cs:81-88 | pages 1..k laid end to end are the list's first k * size items |
| Pagination.PagesCoverItems | Services/CmsChannelServices.cs:81-88 | reading every announced page gives back the whole list, nothing lost or repeated |
| Seqs.WhereMultiplicity | Services/CmsArticleServices.cs:170-174 | a Where keeps every copy of an element that passes the test and drops every copy of one that does not |
| Seqs.CountAppend | Services/CmsChannelServices.cs:46 | the count of a concatenation is the sum of the counts |
| Seqs.CountSingle | Services/CmsChannelServices.cs:46 | one element counts 1 if it passes the test, else 0 |
| Seqs.CountIsPositions | Services/CmsChannelServices.cs:46 | the count is the number of positions whose element passes the test |
| Seqs.JoinWhere | Services/CmsSubCategoryServices.cs:35-67 | an inner join has one row per element that joins and passes the filter; each row is the projection of such an element, and every such element is projected |
| Seqs.WhereAfterJoin | Services/CmsSubCategoryServices.cs:35-72 | a Where after a join equals the join with that test added to its filter |
| Models.AddIf | Services/CmsArticleServices.cs:518-564 | errors.Add on a failed check: the error is in the list iff it was there before or the check failed; the length grows by one exactly then |
| Models.AddIfInOrder | Services/CmsArticleServices.cs:518-564 | adding a later check's error keeps the errors in check order |
| ChannelServices.ArticlesOfChannel | Services/CmsChannelServices.cs:119 | the all-culture count is the number of positions in the article table whose article names the channel; zero iff none does |
| ChannelServices.ArticlesOfChannelInCulture | Services/CmsChannelServices.cs:46 | the culture count is the number of positions whose article names the channel and has that culture; zero iff none does |
| ChannelServices.CultureCountsAddUp | Services/CmsChannelServices.cs:46 | the all-culture count is the culture count plus the number of the channel's articles in other cultures |
| ChannelServices.TwoCulturesCounted | Services/CmsChannelServices.cs:46 | an "en" and a "fr" article of one channel count 2 for the lookups and 1 for the "en" list |
| ChannelServices.CultureCountAtMostTotal | Services/CmsChannelServices.cs:46 | the list's culture count never exceeds the lookups' all-culture count |
| ChannelServices.ChannelListRows | Services/CmsChannelServices.cs:39-74 | a view is a row iff its channel is the owner's (deleted or not), its title passes the keyword and its count is the culture count |
| ChannelServices.ChannelListRowsCount | Services/CmsChannelServices.cs:39-77 | the list has one row per position of an owner's channel whose title passes the keyword, so `totalItems` is that number |
| ChannelServices.GetChannels | Services/CmsChannelServices.cs:32-99 | total items is the number of rows, the page count follows the formula, the items are the Skip/Take slice of the rows, no items when empty, every item is an owner's channel passing the keyword with its culture count |
| ChannelServices.GetChannelByPermaName | Services/CmsChannelServices.cs:109-137 | none iff no undeleted channel of the owner has the perma-name; a result is such a channel with the all-culture count |
| ChannelServices.GetChannelById | Services/CmsChannelServices.cs:146-174 | none iff no undeleted channel of the owner has the Id; a result is that channel with the all-culture count |
| ChannelServices.GetChannelByPermaNameAdmin | Services/CmsChannelServices.cs:183-211 | as the public lookup without the deleted test |
| ChannelServices.GetChannelByIdAdmin | Services/CmsChannelServices.cs:220-248 | as the public lookup by Id without the deleted test |
| ChannelServices.LookupByIdFindsTheRow | Services/CmsChannelServices.cs:146-248 | with unique Ids, the admin lookup by Id returns the row; the public one returns it iff it is not deleted |
| ChannelServices.IsUniqueArticleChannelPermaName | Services/CmsChannelServices.cs:376-386 | true iff no channel has this (ownerId, permaName) |
| ChannelServices.SwappedGuardIgnoresSameKey | Services/CmsChannelServices.cs:273 | with the swapped call, the guard passes whenever no owner equals the item's perma-name |
| ChannelServices.UpsertArticleChannel | Services/CmsChannelServices.cs:255-368 | insert: rejected with "Perma name is not unique." or written stamped with Created and Modified; changed perma: guard then Modified stamped; unchanged perma: written as given; a failed save gives its message as the one error; other tables unchanged |
| ChannelServices.WriteChannel | Services/CmsChannelServices.cs:263-355 | the lookup by Id, guard, stamping and save, with the errors and table for each branch |
| ChannelServices.SaveChannel | Services/CmsChannelServices.cs:275-290 | a throwing save leaves the table and yields the code-500 message; otherwise the row is added or replaced by Id |
| ChannelServices.InsertedChannelIsFound | Services/CmsChannelServices.cs:220-248 | after an insert the admin lookup by Id returns the new row |
| ChannelServices.UpdatedChannelIsFound | Services/CmsChannelServices.cs:220-248 | after an update the admin lookup by Id returns the new row |
| ChannelServices.DuplicatePermaNameAccepted | Services/CmsChannelServices.cs:273 | two upserts leave two channels with the same owner and perma-name |
| CategoryServices.ArticlesOfCategory | Services/CmsCategoryServices.cs:46 | the count is the number of positions whose article names the category; zero iff none does |
| CategoryServices.CategoryRows | Services/CmsCategoryServices.cs:34-64 | a view is a row iff its category is the owner's (deleted or not), its channel row exists and is the one asked for, and it passes the keyword |
| CategoryServices.CategoryRowsCount | Services/CmsCategoryServices.cs:34-67 | one row per position of an owner's category whose channel row exists and is the one asked for and whose title passes the keyword, so `totalItems` is that number |
| CategoryServices.CategoryPage | Services/CmsCategoryServices.cs:66-87 | total items, page count formula, page size bound; the items are the Skip/Take slice of the rows |
| CategoryServices.GetCategoriesByChannelPermaName | Services/CmsCategoryServices.cs:32-89 | the items are the page slice of the rows; every item is an owner's category whose channel has the perma-name, passing the keyword, with the all-culture count |
| CategoryServices.GetCategoriesByChannelId | Services/CmsCategoryServices.cs:101-158 | the items are the page slice of the rows; every item is an owner's category of that channel Id, passing the keyword, with the all-culture count |
| CategoryServices.FindCategory | Services/CmsCategoryServices.cs:168-339 | none iff no category passes the filter; a result passes it and is its joined view |
| CategoryServices.GetCategoryByPermaName | Services/CmsCategoryServices.cs:168-204 | none iff no undeleted category of the owner has the perma-name under that channel perma-name |
| CategoryServices.GetCategoryByPermaNameAdmin | Services/CmsCategoryServices.cs:214-249 | as the public lookup without the deleted test |
| CategoryServices.GetCategoryById | Services/CmsCategoryServices.cs:259-295 | none iff no undeleted category of the owner has the Id and channel Id |
| CategoryServices.GetCategoryByIdAdmin | Services/CmsCategoryServices.cs:305-340 | as the public lookup by Id without the deleted test |
| CategoryServices.LookupByIdFindsTheRow | Services/CmsCategoryServices.cs:259-340 | with unique Ids and a joined channel, the admin lookup returns the row; the public one iff it is not deleted |
| CategoryServices.IsUniqueArticleCategoryPermaName | Services/CmsCategoryServices.cs:478-488 | true iff no category has this (ownerId, permaName, channelId) |
| CategoryServices.UpsertArticleCategory | Services/CmsCategoryServices.cs:347-469 | unknown channel: "Channel is not found" only, nothing written; insert and changed-perma update run the swapped guard; no timestamp is set, the input is echoed |
| CategoryServices.WriteCategory | Services/CmsCategoryServices.cs:367-456 | the insert/update branch past the channel check, with errors and table for each case |
| CategoryServices.SaveCategory | Services/CmsCategoryServices.cs:379-392 | a throwing save leaves the table and yields the message; otherwise the row is added or replaced by Id |
| CategoryServices.WrittenCategoryIsFound | Services/CmsCategoryServices.cs:305-340 | after an insert or an update under an existing channel, the admin lookup by Id returns exactly the written category's view |
| SubCategoryServices.ArticlesOfSubCategory | Services/CmsSubCategoryServices.cs:54 | the count is the number of positions whose article names the sub-category; zero iff none does |
| SubCategoryServices.ParentsOf | Services/CmsSubCategoryServices.cs:36-39 | both parent rows are found iff both Ids exist, and they carry those Ids |
| SubCategoryServices.Rows | Services/CmsSubCategoryServices.cs:35-72 | a view is a row iff it satisfies the query's owner, key, parent and deleted conditions and its Title passes the keyword (the lookups pass none) |
| SubCategoryServices.RowsCount | Services/CmsSubCategoryServices.cs:35-75 | one row per position of a selected sub-category whose Title passes the keyword, so `totalItems` is that number |
| SubCategoryServices.GetSubCategoriesByCategoryPermaName | Services/CmsSubCategoryServices.cs:33-97 | total items, page count formula and page size bound; the items are the Skip/Take slice of the rows |
| SubCategoryServices.ListByPermaNameRows | Services/CmsSubCategoryServices.cs:41-44 | a row has the owner, channel and category perma-names, a parent category that is not deleted, the keyword and the all-culture count |
| SubCategoryServices.GetSubCategoriesByCategoryId | Services/CmsSubCategoryServices.cs:111-175 | total items, page count formula and page size bound; the items are the Skip/Take slice of the rows |
| SubCategoryServices.ListByIdRows | Services/CmsSubCategoryServices.cs:119-122 | a row has the owner, channel Id and category Id, is not deleted itself, passes the keyword, with the all-culture count |
| SubCategoryServices.FindSubCategory | Services/CmsSubCategoryServices.cs:187-388 | none iff no sub-category is selected; a result is a row of the query |
| SubCategoryServices.GetSubCategoryByPermaName | Services/CmsSubCategoryServices.cs:187-229 | none iff no undeleted sub-category matches owner, perma-name and parent perma-names |
| SubCategoryServices.GetSubCategoryById | Services/CmsSubCategoryServices.cs:240-282 | none iff no undeleted sub-category matches owner, Id and parent Ids |
| SubCategoryServices.GetSubCategoryByPermaNameAdmin | Services/CmsSubCategoryServices.cs:294-335 | as the public lookup by perma-name without the deleted test |
| SubCategoryServices.GetSubCategoryByIdAdmin | Services/CmsSubCategoryServices.cs:346-388 | keeps the deleted test: none iff no undeleted sub-category matches owner, Id and parent Ids |
| SubCategoryServices.AdminLookupsDisagreeOnDeleted | Services/CmsSubCategoryServices.cs:294-388 | a deleted sub-category is found by the admin perma-name lookup but not by the admin Id lookup |
| SubCategoryServices.IsUniqueArticleSubCategoryPermaName | Services/CmsSubCategoryServices.cs:544-554 | true iff no row has this (ownerId, permaName, channelId, categoryId) |
| SubCategoryServices.ParentErrors | Services/CmsSubCategoryServices.cs:403-424 | the channel error is present iff the channel is missing, the category error iff the category is missing, in that order, nothing else |
| SubCategoryServices.UpsertArticleSubCategory | Services/CmsSubCategoryServices.cs:395-534 | any parent error: those errors, nothing written; insert stamps Created and Modified before the swapped guard; update stamps Modified before the perma comparison; a rejected item comes back stamped |
| SubCategoryServices.WriteSubCategory | Services/CmsSubCategoryServices.cs:427-521 | the stamping, guard and save past the parent checks, with errors, table and stamped item per case |
| SubCategoryServices.SaveSubCategory | Services/CmsSubCategoryServices.cs:441-454 | a throwing save leaves the table and yields the message; otherwise the row is added or replaced by Id |
| AuthorServices.ArticlesOfAuthor | Services/CmsAuthorServices.cs:42 | the count is the number of positions whose article names the author; zero iff none does |
| AuthorServices.AuthorViewOf | Services/CmsAuthorServices.cs:39-53 | the projection copies every author field except DisplayOrder, which is 0, and carries the all-culture count |
| AuthorServices.AuthorRows | Services/CmsAuthorServices.cs:33-58 | every listed author (owner, not deleted, keyword on Name) is projected into the rows, and every row is such a projection |
| AuthorServices.AuthorRowsCount | Services/CmsAuthorServices.cs:33-61 | one row per position of a listed author, so `totalItems` is that number |
| AuthorServices.GetAuthors | Services/CmsAuthorServices.cs:31-83 | total items, page count formula, page size bound; the items are the Skip/Take slice of the rows |
| AuthorServices.ListedAuthorsAreLive | Services/CmsAuthorServices.cs:37-57 | every listed author is the owner's, not deleted, passes the keyword on Name and carries the all-culture count |
| AuthorServices.GetAuthorByPermaName | Services/CmsAuthorServices.cs:92-123 | none iff no undeleted author of the owner has the perma-name; a result is such an author's projection |
| AuthorServices.GetAuthorForByPermaNameAdmin | Services/CmsAuthorServices.cs:132-163 | the same as the public lookup: deleted authors are excluded too |
| AuthorServices.DeletedAuthorIsHidden | Services/CmsAuthorServices.cs:100-143 | a deleted author is found by neither lookup |
| AuthorServices.OriginalAuthor | Services/CmsAuthorServices.cs:181 | the existing row is looked up by perma-name and owner |
| AuthorServices.IsUniqueAuthorPermaName | Services/CmsAuthorServices.cs:298-308 | true iff no author has this (ownerId, permaName) |
| AuthorServices.InsertGuardInOrderAlwaysPasses | Services/CmsAuthorServices.cs:181-189 | on the insert path the guard called in order could not fail; only the swapped call rejects |
| AuthorServices.UpsertAuthor | Services/CmsAuthorServices.cs:170-290 | insert stamps Created and Modified before the swapped guard; update stamps Modified and writes by Id; the store also fails on a duplicate Id (insert) or a missing Id (update) |
| AuthorServices.WriteAuthor | Services/CmsAuthorServices.cs:178-277 | the lookup, stamping, guard and save, with errors, table and stamped item per case |
| AuthorServices.SaveAuthor | Services/CmsAuthorServices.cs:191-207 | a save fails when it throws, when the Add repeats an Id or when the Update names a missing Id; otherwise the row is added or replaced |
| AuthorServices.InsertedAuthorIsFound | Services/CmsAuthorServices.cs:92-123 | after an insert of an undeleted author the public lookup returns its projection |
| AuthorServices.UpdateOverwritesAnotherAuthor | Services/CmsAuthorServices.cs:181-263 | an update of one author with another's perma-name leaves two authors sharing owner and perma-name |
| ArticleServices.ParentsOf | Services/CmsArticleServices.cs:64-68 | the four joins succeed iff the four parent Ids exist; each parent has the article's Id for it |
| ArticleServices.BaseRows | Services/CmsArticleServices.cs:64-108 | every row is a joined article passing the base filter, and every such article is a row |
| ArticleServices.BaseRowsCount | Services/CmsArticleServices.cs:64-108 | one row per position of an article that joins all four parents and passes the base filter |
| ArticleServices.ChannelNamed | Services/CmsArticleServices.cs:126 | the channel lookup by perma-name and owner |
| ArticleServices.ChannelIdOf | Services/CmsArticleServices.cs:122-144 | no channel named gives the null Id; otherwise the named channel's Id |
| ArticleServices.CategoryNamed | Services/CmsArticleServices.cs:150 | the category lookup by perma-name and the channel Id |
| ArticleServices.SubCategoryNamed | Services/CmsArticleServices.cs:158 | the sub-category lookup by perma-name and the channel Id |
| ArticleServices.AuthorNamed | Services/CmsArticleServices.cs:166 | the author lookup by perma-name and owner |
| ArticleServices.Narrow | Services/CmsArticleServices.cs:140-175 | a row is kept iff it passes every narrowing in force |
| ArticleServices.NarrowMultiplicity | Services/CmsArticleServices.cs:140-175 | each row that passes every narrowing keeps all its copies and every other row keeps none, so the base rows fix `totalItems` |
| ArticleServices.NarrowingOf | Services/CmsArticleServices.cs:122-175 | the public list always narrows by channel Id, the admin list only when a channel is named; the other narrowings apply exactly when named |
| ArticleServices.OrderedPage | Services/CmsArticleServices.cs:176-197 | total items is the list's length, pages follow the formula, items are the whole list sorted by PublishUnixtime descending, as a permutation |
| ArticleServices.ArticleList | Services/CmsArticleServices.cs:45-198 | no base rows gives the one 404 "There is no such article."; an unknown channel the one 404 "There is no such channel."; otherwise the ordered, unpaged, narrowed set |
| ArticleServices.ListedArticles | Services/CmsArticleServices.cs:110-192 | once past the checks, a view is listed iff it is a base row passing the narrowing |
| ArticleServices.GetArticlesByPermaName | Services/CmsArticleServices.cs:45-198 | errors are none or one of the two 404s; every item is on air in the requested culture |
| ArticleServices.PublicRowsOnAir | Services/CmsArticleServices.cs:70-75 | every public base row is inside the strict publish/expire window and has the culture |
| ArticleServices.NullChannelNarrowsToNothing | Services/CmsArticleServices.cs:144 | narrowing by the null channel Id keeps nothing |
| ArticleServices.PublicListNeedsAChannel | Services/CmsArticleServices.cs:122-144 | with no channel named, the public list passes the checks but returns no items and zero totals |
| ArticleServices.GetArticlesByPermaNameAdmin | Services/CmsArticleServices.cs:216-364 | errors are none or one of the two 404s; with nothing named, the total is the number of owner and culture rows |
| ArticleServices.PublicRowsAreAdminRows | Services/CmsArticleServices.cs:64-75 | every public base row is an admin base row |
| ArticleServices.PublicListWithinAdminList | Services/CmsArticleServices.cs:216-364 | whenever the public list passes its checks the admin list does too, and every public item is an admin item |
| ArticleServices.GetArticleByPermaName | Services/CmsArticleServices.cs:380-442 | none iff no joined article matches owner, culture, the four perma-names, not deleted and on air; a result is such an article's view |
| ArticleServices.GetArticleById | Services/CmsArticleServices.cs:451-501 | none iff no joined, undeleted article of the owner has the Id; a result is its view |
| ArticleServices.ArticleByIdFindsTheRow | Services/CmsArticleServices.cs:451-501 | with unique Ids, a joined undeleted article is returned by its Id and a deleted one is not |
| ArticleServices.IsUniqueArticlePermaName | Services/CmsArticleServices.cs:729-752 | true iff no article matches all six of owner, channel, category, sub-category, perma-name and culture |
| ArticleServices.ReferenceErrors | Services/CmsArticleServices.cs:518-564 | each of the four not-found errors is present iff its parent Id is missing |
| ArticleServices.ReferenceErrorsInOrder | Services/CmsArticleServices.cs:518-564 | the errors come in check order, channel, category, sub-category, author, and are only those four |
| ArticleServices.NoReferenceErrorsMeansJoined | Services/CmsArticleServices.cs:518-564 | no reference error iff the article would join to all four parents |
| ArticleServices.Restamped | Services/CmsArticleServices.cs:582-585 | both epochs are recomputed from Expire and Publish, Modified is now, Id and Created are kept |
| ArticleServices.ValidateReferences | Services/CmsArticleServices.cs:518-564 | the four checks yield exactly the reference errors |
| ArticleServices.UpsertArticle | Services/CmsArticleServices.cs:511-683 | reference errors: Bad Request with those errors, the input echoed, nothing written; otherwise the insert or update outcome |
| ArticleServices.InsertArticle | Services/CmsArticleServices.cs:572-610 | the in-order guard passes: restamped with Created, then saved; fails: "Perma name is not unique." with the unstamped item |
| ArticleServices.UpdateArticle | Services/CmsArticleServices.cs:611-669 | changed perma-name with the swapped guard failing: rejected, unstamped; otherwise restamped and the row replaced by Id |
| ArticleServices.SaveArticle | Services/CmsArticleServices.cs:579-598 | a throwing save leaves the table and yields the message; otherwise the row is added or replaced by Id |
| ArticleServices.DeletePhysicalArticle | Services/CmsArticleServices.cs:690-698 | the row with the Id is removed and returned; the table shrinks by one and keeps every other row |
| ArticleServices.DeleteLogicalArticle | Services/CmsArticleServices.cs:707-718 | the row with the Id is replaced by itself with IsDeleted set and Modified now, and returned |
| ArticleServices.LogicallyDeletedIsHidden | Services/CmsArticleServices.cs:707-718 | after a logical delete the row stays in the table but the lookup by Id no longer returns it |
| ArticleServices.PhysicallyDeletedIsGone | Services/CmsArticleServices.cs:690-698 | after a physical delete the lookup by Id returns nothing |

## Left out

- Image and file handling (`Models/FileModels.cs`, the Images table): not part of the five service classes.
- `CmsServices.cs` and `Interfaces/ICmsServices.cs` are not part of this model. They are an older single-class copy of the same operations, outside the five service classes.
- Entity Framework machinery (change tracking, `AsNoTracking`, SQL translation) and `async`/`await`: tables are in-memory sequences and every call runs to completion.
- SQL collation and case-insensitive comparison: strings compare exactly. Under a case-insensitive collation the author upsert's changed-perma branch could be reached; here it is unreachable.
- `DateTime.Now`: one value `now` per call, although the code reads the clock several times.
- `DateTimeHelpers.GetUnixTime`: the parameter `unixTime`, left unconstrained.
- Ties among equal `PublishUnixtime` values: the order the store gives them is not modelled. ArticleServices.OrderedPage therefore states sortedness and a permutation, not one particular order.
- Exception messages: the parameter `failureMessage`, whatever the store would say.
- Races between the guard and the write: concurrency is out of scope.
- ChannelServices.GetChannels: the code's `items == null` branch and its unused `channels` object are dead and not modelled.
- Integer overflow of `(page - 1) * size` and the 32-bit `int` fields: integers are unbounded.
- A zero page size with at least one item divides by zero in the code. The list functions require a non-zero size in that case.
- Null strings are the empty string. The channel, category, sub-category and author lists filter in memory, where a null `Title` or `Name` makes `Contains` throw; that exception is not modelled. The article lists filter in SQL, where a null `Title` fails the `LIKE` match and nothing throws, just as the empty string fails it here.
- Joins are modelled as a lookup of the first parent row with the key. This equals the inner join while primary keys are unique, which `CmsDbContext.Valid()` keeps.
- ArticleServices.ArticleList: a named category, sub-category or author that does not exist is dereferenced as null by the code. The list requires all three to resolve (`NamesResolve`).
- ArticleServices.DeletePhysicalArticle and ArticleServices.DeleteLogicalArticle require the Id to exist, since the code dereferences a missing row. A failing save is not modelled for the deletes, because the code lets its exception escape.
- `PaginationModel.Keyword` is never set by the services and is left out of the model.
- AuthorServices.UpsertAuthor: the changed-perma branch is written as unreachable (`assert false`), since the original is found by this very perma-name.
