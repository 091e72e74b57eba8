/** The JSON bodies the controllers reply with, and the per-row annotations
    they compute from the store (favorite counts, the caller's favorite and
    follow flags, the author's profile). */
module Views {
  import opened Common
  import opened Errors
  import opened Schema
  import opened UserModel

  datatype ArticleView = ArticleView(slug: string, title: string, description: string, body: string,
                                     tagList: set<string>, createdAt: nat, updatedAt: nat,
                                     favorited: bool, favoritesCount: nat, author: ProfileView)

  datatype CommentView = CommentView(id: CommentId, body: string, createdAt: nat, updatedAt: nat,
                                     author: ProfileView)

  /** The JSON body of a successful reply. */
  datatype Body =
    | ProfileBody(profile: ProfileView)
    | UserBody(user: AuthUser)
    | ArticleBody(article: ArticleView)
    | ArticlesBody(articles: seq<ArticleView>, articlesCount: nat)
    | CommentBody(comment: CommentView)
    | CommentsBody(comments: seq<CommentView>)
    | Notice(message: string)

  /** What a controller does with a request: reply with a status and a body,
      or pass an error to the error handler. */
  datatype Response = Reply(status: nat, body: Body) | Failure(error: Thrown)

  /** The `article_favorites` rows of an article. */
  function FavoriteRows(favorites: set<(UserId, ArticleId)>, article: ArticleId): set<(UserId, ArticleId)>
  {
    set p | p in favorites && p.1 == article
  }

  /** `ArticleFavorite.count({where: {article_id}})`. */
  function FavoritesCount(favorites: set<(UserId, ArticleId)>, article: ArticleId): nat
  {
    |FavoriteRows(favorites, article)|
  }

  /** Adding a favorite row counts once, and only if it was absent. */
  lemma FavoritesCountInsert(favorites: set<(UserId, ArticleId)>, user: UserId, article: ArticleId)
    ensures (user, article) !in favorites ==>
              FavoritesCount(favorites + {(user, article)}, article) == FavoritesCount(favorites, article) + 1
    ensures (user, article) in favorites ==>
              FavoritesCount(favorites + {(user, article)}, article) == FavoritesCount(favorites, article)
  {
    var before := FavoriteRows(favorites, article);
    var after := FavoriteRows(favorites + {(user, article)}, article);
    if (user, article) !in favorites {
      assert after == before + {(user, article)};
    } else {
      assert after == before;
    }
  }

  /** Removing a favorite row uncounts it, and only if it was present. */
  lemma FavoritesCountRemove(favorites: set<(UserId, ArticleId)>, user: UserId, article: ArticleId)
    ensures (user, article) in favorites ==>
              FavoritesCount(favorites - {(user, article)}, article) + 1 == FavoritesCount(favorites, article)
    ensures (user, article) !in favorites ==>
              FavoritesCount(favorites - {(user, article)}, article) == FavoritesCount(favorites, article)
  {
    var before := FavoriteRows(favorites, article);
    var after := FavoriteRows(favorites - {(user, article)}, article);
    if (user, article) in favorites {
      assert before == after + {(user, article)};
    } else {
      assert after == before;
    }
  }

  /** The author object of an article or comment: the user's profile with
      the given `following` flag and null bio/image rendered as ''. */
  function AuthorProfile(users: seq<User>, author: UserId, following: bool): (p: ProfileView)
    ensures p.following == following
    ensures author in UserIds(users) ==>
              exists u :: u in users && u.id == author && p == ProfileOf(u, following)
  {
    match UserById(users, author)
    case Some(u) => ProfileOf(u, following)
    case None => ProfileView("", "", "", following)
  }

  /** An article as the API returns it, with the given flags. */
  function ArticleViewOf(db: Db, a: Article, favorited: bool, following: bool): ArticleView
  {
    ArticleView(a.slug, a.title, a.description, a.body, a.tags, a.createdAt, a.updatedAt,
                favorited, FavoritesCount(db.favorites, a.id), AuthorProfile(db.users, a.authorId, following))
  }

  /** A comment as the API returns it, with the given `following` flag. */
  function CommentViewOf(db: Db, c: Comment, following: bool): CommentView
  {
    CommentView(c.id, c.body, c.createdAt, c.updatedAt, AuthorProfile(db.users, c.authorId, following))
  }

  /** `!!(await UserFollow.findOne({where: {follower_id, followed_id}}))`,
      asked only when the caller is known. */
  predicate FollowsAs(db: Db, caller: Option<UserId>, target: UserId) {
    SignedIn(caller) && (caller.value, target) in db.follows
  }

  /** The same question for the favorite relation. */
  predicate FavoritedBy(db: Db, caller: Option<UserId>, article: ArticleId) {
    SignedIn(caller) && (caller.value, article) in db.favorites
  }
}
