/** The records of the content store (the C# model classes). Every row carries the
    ArticleBaseModel fields: OwnerId, Modified, Created, IsDeleted,
    IsPublished. A C# DateTime is a tick count here; a null string is "". */
module Models {

  type DateTime = int

  datatype Channel = Channel(
    id: string,
    name: string,
    permaName: string,
    displayOrder: int,
    title: string,
    description: string,
    ownerId: string,
    modified: DateTime,
    created: DateTime,
    isDeleted: bool,
    isPublished: bool)

  datatype Category = Category(
    id: string,
    name: string,
    permaName: string,
    channelId: string,
    displayOrder: int,
    title: string,
    description: string,
    ownerId: string,
    modified: DateTime,
    created: DateTime,
    isDeleted: bool,
    isPublished: bool)

  datatype SubCategory = SubCategory(
    id: string,
    name: string,
    permaName: string,
    channelId: string,
    categoryId: string,
    displayOrder: int,
    title: string,
    description: string,
    ownerId: string,
    modified: DateTime,
    created: DateTime,
    isDeleted: bool,
    isPublished: bool)

  datatype Author = Author(
    id: string,
    permaName: string,
    name: string,
    alterName: string,
    description: string,
    iconImageUrl: string,
    displayOrder: int,
    ownerId: string,
    modified: DateTime,
    created: DateTime,
    isDeleted: bool,
    isPublished: bool)

  datatype Article = Article(
    id: string,
    title: string,
    description: string,
    text: string,
    markdownText: string,
    url: string,
    publish: DateTime,
    publishUnixtime: int,
    expire: DateTime,
    expireUnixtime: int,
    imageId: string,
    imageUrl: string,
    channelId: string,
    categoryId: string,
    subCategoryId: string,
    tags: string,
    authorId: string,
    culture: string,
    permaName: string,
    ownerId: string,
    modified: DateTime,
    created: DateTime,
    isDeleted: bool,
    isPublished: bool)

  // Primary keys ([Key] Id) of the five tables.
  function ChannelKey(c: Channel): string { c.id }
  function CategoryKey(c: Category): string { c.id }
  function SubCategoryKey(c: SubCategory): string { c.id }
  function AuthorKey(a: Author): string { a.id }
  function ArticleKey(a: Article): string { a.id }

  // View models: the row plus what the query joins in.

  /** ArticleChannelViewModel: every channel field, the article Count and the Culture argument. */
  datatype ArticleChannelView = ArticleChannelView(channel: Channel, count: nat, culture: string)

  /** ArticleCategoryViewModel. */
  datatype ArticleCategoryView = ArticleCategoryView(
    category: Category,
    channelName: string,
    channelPermaName: string,
    culture: string,
    count: nat)

  /** ArticleSubCategoryViewModel. */
  datatype ArticleSubCategoryView = ArticleSubCategoryView(
    subCategory: SubCategory,
    channelName: string,
    channelPermaName: string,
    categoryName: string,
    categoryPermaName: string,
    culture: string,
    count: nat)

  /** AuthorViewModel; the projection does not copy DisplayOrder, so it is 0 in `author`. */
  datatype AuthorView = AuthorView(author: Author, counts: nat)

  /** ArticleViewModel. The projection does not copy OwnerId, Created,
      Modified, IsDeleted or IsPublished: in `article` they hold their
      defaults ("", 0, 0, false, false). */
  datatype ArticleView = ArticleView(
    article: Article,
    channelName: string,
    channelPermaName: string,
    categoryName: string,
    categoryPermaName: string,
    subCategoryName: string,
    subCategoryPermaName: string,
    authorName: string,
    authorPermaName: string,
    authorImageUrl: string,
    authorIntroduction: string)

  /** The key OrderByDescending(a => a.PublishUnixtime) sorts article views on. */
  function PublishKey(v: ArticleView): int { v.article.publishUnixtime }

  // Responses.

  datatype ErrorModel = ErrorModel(errorCode: int, errorMessage: string)

  /** PaginationModel<T>; a list the code leaves null is empty here. */
  datatype PaginationModel<T> = PaginationModel(
    currentPage: int,
    totalPages: int,
    itemsPerPage: int,
    totalItems: int,
    items: seq<T>,
    errors: seq<ErrorModel>)

  /** The model an early return hands back: only Errors is set. */
  function ErrorPage<T>(e: ErrorModel): (r: PaginationModel<T>)
    ensures r.items == [] && r.errors == [e] && r.totalItems == 0 && r.totalPages == 0
  {
    PaginationModel(0, 0, 0, 0, [], [e])
  }

  /** UpsertResponseModel<T>. */
  datatype UpsertResponseModel<T> = UpsertResponseModel(responseStatus: string, errors: seq<ErrorModel>, item: T)

  const Success := "Success"
  const BadRequest := "Bad Request"

  const NotUnique := ErrorModel(500, "Perma name is not unique.")
  const ChannelNotFound := ErrorModel(500, "Channel is not found")
  const CategoryNotFound := ErrorModel(500, "Category is not found")
  const SubCategoryNotFound := ErrorModel(500, "Sub category is not found")
  const AuthorNotFound := ErrorModel(500, "Author is not found")

  /** Where a parent-not-found error stands in the order the upserts run
      their checks: channel, category, sub-category, author. */
  function CheckRank(e: ErrorModel): int
  {
    if e == ChannelNotFound then 0
    else if e == CategoryNotFound then 1
    else if e == SubCategoryNotFound then 2
    else 3
  }

  lemma CheckRanks()
    ensures CheckRank(ChannelNotFound) == 0 && CheckRank(CategoryNotFound) == 1
    ensures CheckRank(SubCategoryNotFound) == 2 && CheckRank(AuthorNotFound) == 3
  {
  }

  /** errors.Add(e) when the check failed. */
  function AddIf(errors: seq<ErrorModel>, failed: bool, e: ErrorModel): (r: seq<ErrorModel>)
    ensures forall x :: x in r <==> x in errors || (failed && x == e)
    ensures |r| == |errors| + (if failed then 1 else 0)
  {
    if failed then errors + [e] else errors
  }

  /** A later check's error keeps the list in check order. */
  lemma AddIfInOrder(errors: seq<ErrorModel>, failed: bool, e: ErrorModel)
    requires InCheckOrder(errors)
    requires forall x :: x in errors ==> CheckRank(x) < CheckRank(e)
    ensures InCheckOrder(AddIf(errors, failed, e))
  {
    if failed {
      var r := errors + [e];
      forall i, j | 0 <= i < j < |r|
        ensures CheckRank(r[i]) < CheckRank(r[j])
      {
        if j == |errors| {
          assert r[i] in errors;
        } else {
          assert r[i] == errors[i] && r[j] == errors[j];
        }
      }
    }
  }

  /** The errors appear in the order the checks run. */
  ghost predicate InCheckOrder(errors: seq<ErrorModel>)
  {
    forall i, j :: 0 <= i < j < |errors| ==> CheckRank(errors[i]) < CheckRank(errors[j])
  }

  /** The error a failed SaveChangesAsync is turned into. */
  function StoreFault(message: string): ErrorModel { ErrorModel(500, message) }

  /** The upsert refused before writing: the input item comes back with the errors. */
  ghost predicate Rejected<T>(response: UpsertResponseModel<T>, errors: seq<ErrorModel>, item: T, before: seq<T>, after: seq<T>)
  {
    response == UpsertResponseModel(BadRequest, errors, item) && after == before
  }

  /** What a save returns as errors: the failure text when it throws,
      otherwise nothing, with the table then `target`. */
  ghost predicate Stored<T>(errors: seq<ErrorModel>, fails: bool, failureMessage: string,
                            before: seq<T>, after: seq<T>, target: seq<T>)
  {
    if fails then errors == [StoreFault(failureMessage)] && after == before
    else errors == [] && after == target
  }

  /** The upsert handed `written` to the store: on a store failure the table
      is untouched and the failure text becomes the one error; otherwise the
      table becomes `target` and the status is "Success". Either way the
      (stamped) item is echoed. */
  ghost predicate Written<T>(response: UpsertResponseModel<T>, written: T, fails: bool, failureMessage: string,
                             before: seq<T>, after: seq<T>, target: seq<T>)
  {
    if fails then
      response == UpsertResponseModel(BadRequest, [StoreFault(failureMessage)], written) && after == before
    else
      response == UpsertResponseModel(Success, [], written) && after == target
  }
}
