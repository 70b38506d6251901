/**
 * The MongoDB collections the controllers read and write: analytics events,
 * posts and categories, each held in insertion order. A query is a function
 * of the table it reads; an insert, update or delete reassigns the table.
 */
module Store {
  import AnalyticsModel
  import PostModel
  import CategoryModel

  class Db {
    var events: seq<AnalyticsModel.Event>
    var posts: seq<PostModel.Post>
    var categories: seq<CategoryModel.Category>

    /** A database holding the given collections. */
    constructor (events: seq<AnalyticsModel.Event>, posts: seq<PostModel.Post>,
                 categories: seq<CategoryModel.Category>)
      ensures this.events == events && this.posts == posts && this.categories == categories
    {
      this.events := events;
      this.posts := posts;
      this.categories := categories;
    }
  }
}
