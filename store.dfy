/** The database as one mutable object: each table is a field that the
    controllers reassign. */
module Database {
  import opened Common
  import opened Schema

  class Store {
    var users: seq<User>
    var articles: seq<Article>
    var comments: seq<Comment>
    var tags: seq<string>
    var follows: set<(UserId, UserId)>
    var favorites: set<(UserId, ArticleId)>
    var nextUserId: nat
    var nextArticleId: nat
    var nextCommentId: nat

    /** The current contents of every table. */
    function Snapshot(): Db
      reads this
    {
      Db(users, articles, comments, tags, follows, favorites, nextUserId, nextArticleId, nextCommentId)
    }

    ghost predicate Valid()
      reads this
    {
      Snapshot().Valid()
    }

    /** An empty database; every auto-increment sequence starts at 1. */
    constructor ()
      ensures Valid()
      ensures Snapshot() == Db([], [], [], [], {}, {}, 1, 1, 1)
    {
      users, articles, comments, tags := [], [], [], [];
      follows, favorites := {}, {};
      nextUserId, nextArticleId, nextCommentId := 1, 1, 1;
    }
  }
}
