/** The tables of the relational store as plain values, the constraints the
    schema declares on them (unique keys, non-empty columns, foreign keys,
    the comment cascade), and the single-row lookups (`findOne`,
    `findByPk`) the controllers perform. */
module Schema {
  import opened Common
  import opened Tables

  type UserId = nat
  type ArticleId = nat
  type CommentId = nat

  /** A `users` row; `password` holds the stored (hashed) value, `bio` and
      `image` are nullable. */
  datatype User = User(id: UserId, username: string, email: string, password: string,
                       bio: Option<string>, image: Option<string>)

  /** An `articles` row with its tag associations (the names of its tags). */
  datatype Article = Article(id: ArticleId, slug: string, title: string, description: string, body: string,
                             authorId: UserId, tags: set<string>, createdAt: nat, updatedAt: nat)

  /** A `comments` row. */
  datatype Comment = Comment(id: CommentId, body: string, articleId: ArticleId, authorId: UserId,
                             createdAt: nat, updatedAt: nat)

  /** The whole store. `tags` is the tag table (its names in insertion order;
      tag ids play no part);
      `follows` holds (follower, followed) pairs and `favorites` (user, article)
      pairs, so each pair is present at most once; the `next*` counters are the
      auto-increment sequences. */
  datatype Db = Db(users: seq<User>, articles: seq<Article>, comments: seq<Comment>, tags: seq<string>,
                   follows: set<(UserId, UserId)>, favorites: set<(UserId, ArticleId)>,
                   nextUserId: nat, nextArticleId: nat, nextCommentId: nat)
  {
    ghost predicate Valid() {
      && UsersValid(users, nextUserId)
      && ArticlesValid(articles, nextArticleId, UserIds(users), TagSet(tags))
      && CommentsValid(comments, nextCommentId, ArticleIds(articles), UserIds(users))
      && TagsValid(tags)
      && FollowsValid(follows, UserIds(users))
      && FavoritesValid(favorites, UserIds(users), ArticleIds(articles))
    }
  }

  function UserIds(users: seq<User>): set<UserId> {
    set u | u in users :: u.id
  }

  function ArticleIds(articles: seq<Article>): set<ArticleId> {
    set a | a in articles :: a.id
  }

  // Key columns, named so that every uniqueness statement speaks of the same column.
  function UserKey(u: User): UserId { u.id }
  function UserName(u: User): string { u.username }
  function UserEmail(u: User): string { u.email }
  function ArticleKey(a: Article): ArticleId { a.id }
  function ArticleSlug(a: Article): string { a.slug }
  function CommentKey(c: Comment): CommentId { c.id }

  /** Auto-increment primary key (from 1), unique `username` and `email`,
      both passing `notEmpty`. */
  ghost predicate UsersValid(users: seq<User>, nextId: nat) {
    && 0 < nextId
    && (forall u :: u in users ==> 0 < u.id < nextId && NotBlank(u.username) && NotBlank(u.email))
    && Unique(users, UserKey) && Unique(users, UserName) && Unique(users, UserEmail)
  }

  /** Primary key, unique `slug`, title, description and body passing
      `notEmpty`, an existing author, and tags drawn from the tag table. */
  ghost predicate ArticlesValid(articles: seq<Article>, nextId: nat, userIds: set<UserId>, tags: set<string>) {
    && 0 < nextId
    && (forall a :: a in articles ==> ArticleRowValid(a, nextId, userIds, tags))
    && Unique(articles, ArticleKey) && Unique(articles, ArticleSlug)
  }

  ghost predicate ArticleRowValid(a: Article, nextId: nat, userIds: set<UserId>, tags: set<string>) {
    0 < a.id < nextId && a.slug != "" && NotBlank(a.title) && NotBlank(a.description) && NotBlank(a.body)
    && a.authorId in userIds && a.tags <= tags
  }

  /** Primary key, a body passing `notEmpty`, an existing author, and an
      existing article (comments are deleted with their article). */
  ghost predicate CommentsValid(comments: seq<Comment>, nextId: nat, articleIds: set<ArticleId>, userIds: set<UserId>) {
    && 0 < nextId
    && (forall c :: c in comments ==>
          0 < c.id < nextId && NotBlank(c.body) && c.articleId in articleIds && c.authorId in userIds)
    && Unique(comments, CommentKey)
  }

  function TagSet(tags: seq<string>): set<string> {
    set t | t in tags
  }

  function TagName(t: string): string { t }

  /** Tag names pass `notEmpty` and are unique. */
  ghost predicate TagsValid(tags: seq<string>) {
    (forall t :: t in tags ==> NotBlank(t)) && Unique(tags, TagName)
  }

  /** Both ends are users, and nobody follows themselves. */
  ghost predicate FollowsValid(follows: set<(UserId, UserId)>, userIds: set<UserId>) {
    forall p :: p in follows ==> p.0 in userIds && p.1 in userIds && p.0 != p.1
  }

  ghost predicate FavoritesValid(favorites: set<(UserId, ArticleId)>, userIds: set<UserId>, articleIds: set<ArticleId>) {
    forall p :: p in favorites ==> p.0 in userIds && p.1 in articleIds
  }

  /** JavaScript `if (currentUserId)`: a caller is known and the id is not 0. */
  predicate SignedIn(caller: Option<UserId>) {
    caller.Some? && caller.value != 0
  }

  // ---- Lookups ------------------------------------------------------------

  /** `User.findByPk(id)`. */
  function UserById(users: seq<User>, id: UserId): (r: Option<User>)
    ensures r.Some? ==> r.value in users && r.value.id == id
    ensures r.None? ==> id !in UserIds(users)
  {
    if users == [] then None
    else if users[0].id == id then Some(users[0])
    else UserById(users[1..], id)
  }

  /** `User.findOne({where: {<column>: value}})` on a string column: the
      first row, in table order, that holds `value` there. */
  function UserWhere(users: seq<User>, column: User -> string, value: string): (r: Option<User>)
    ensures r.Some? ==> r.value in users && column(r.value) == value
    ensures r.None? ==> forall u :: u in users ==> column(u) != value
  {
    if users == [] then None
    else if column(users[0]) == value then Some(users[0])
    else UserWhere(users[1..], column, value)
  }

  /** `User.findOne({where: {username}})`. */
  function UserByUsername(users: seq<User>, username: string): (r: Option<User>)
    ensures r.Some? ==> r.value in users && r.value.username == username
    ensures r.None? ==> forall u :: u in users ==> u.username != username
  {
    UserWhere(users, UserName, username)
  }

  /** `User.findOne({where: {email}})`. */
  function UserByEmail(users: seq<User>, email: string): (r: Option<User>)
    ensures r.Some? ==> r.value in users && r.value.email == email
    ensures r.None? ==> forall u :: u in users ==> u.email != email
  {
    UserWhere(users, UserEmail, email)
  }

  /** The position of the user row with primary key `id`. */
  function UserIndex(users: seq<User>, id: UserId): (r: Option<nat>)
    ensures r.Some? ==> r.value < |users| && users[r.value].id == id
    ensures r.None? ==> id !in UserIds(users)
  {
    if users == [] then None
    else if users[0].id == id then Some(0)
    else match UserIndex(users[1..], id)
      case Some(k) => Some(k + 1)
      case None => None
  }

  /** `Article.findOne({where: {slug}})`, as the row's position. */
  function ArticleIndex(articles: seq<Article>, slug: string): (r: Option<nat>)
    ensures r.Some? ==> r.value < |articles| && articles[r.value].slug == slug
    ensures r.None? ==> forall a :: a in articles ==> a.slug != slug
  {
    if articles == [] then None
    else if articles[0].slug == slug then Some(0)
    else match ArticleIndex(articles[1..], slug)
      case Some(k) => Some(k + 1)
      case None => None
  }

  /** `Comment.findOne({where: {id, article_id}})`, as the row's position. */
  function CommentIndex(comments: seq<Comment>, id: CommentId, articleId: ArticleId): (r: Option<nat>)
    ensures r.Some? ==> r.value < |comments| && comments[r.value].id == id && comments[r.value].articleId == articleId
    ensures r.None? ==> forall c :: c in comments ==> !(c.id == id && c.articleId == articleId)
  {
    if comments == [] then None
    else if comments[0].id == id && comments[0].articleId == articleId then Some(0)
    else match CommentIndex(comments[1..], id, articleId)
      case Some(k) => Some(k + 1)
      case None => None
  }

  /** Under the unique keys a lookup by username finds the one user with it. */
  lemma UsernameIdentifies(db: Db, u: User)
    requires db.Valid() && u in db.users
    ensures UserByUsername(db.users, u.username) == Some(u)
  {
    var r := UserByUsername(db.users, u.username);
    var i :| 0 <= i < |db.users| && db.users[i] == u;
    var j :| 0 <= j < |db.users| && db.users[j] == r.value;
    assert UserName(db.users[i]) == UserName(db.users[j]);
  }
}
