/** The database context: one sequence of rows per table, in store order.
    The Images table belongs to the file services and is not modelled. */
module Data {
  import opened Seqs
  import opened Models

  /** The tables as one value, as a query reads them. */
  datatype Store = Store(
    articles: seq<Article>,
    channels: seq<Channel>,
    categories: seq<Category>,
    subCategories: seq<SubCategory>,
    author: seq<Author>)

  /** Every table keeps its primary key ([Key] Id) unique. */
  ghost predicate KeysUnique(s: Store)
  {
    UniqueBy(s.articles, ArticleKey) &&
    UniqueBy(s.channels, ChannelKey) &&
    UniqueBy(s.categories, CategoryKey) &&
    UniqueBy(s.subCategories, SubCategoryKey) &&
    UniqueBy(s.author, AuthorKey)
  }

  /** CmsDbContext: the DbSets the services read and write. */
  class CmsDbContext {
    var articles: seq<Article>
    var channels: seq<Channel>
    var categories: seq<Category>
    var subCategories: seq<SubCategory>
    var author: seq<Author>

    /** What a query sees: the current contents of every table. */
    function State(): (s: Store)
      reads this
      ensures s.articles == articles && s.channels == channels && s.categories == categories
      ensures s.subCategories == subCategories && s.author == author
    {
      Store(articles, channels, categories, subCategories, author)
    }

    ghost predicate Valid()
      reads this
    {
      KeysUnique(State())
    }

    /** An empty database. */
    constructor ()
      ensures Valid()
      ensures articles == [] && channels == [] && categories == [] && subCategories == [] && author == []
    {
      articles := [];
      channels := [];
      categories := [];
      subCategories := [];
      author := [];
    }
  }
}
