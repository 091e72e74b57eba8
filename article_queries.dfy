/** The read-only handlers of `ArticleController`: the filtered, ordered and
    paged article list, the feed of followed authors, and a single article.
    Each is a query on the store followed by a per-article annotation (the
    caller's favorite and follow flags and the favorite count). */
module ArticleQueries {
  import opened Common
  import opened Errors
  import opened Tables
  import opened Schema
  import opened Views
  import opened Ordering

  /** The filter parameters of `GET /articles`. */
  datatype Filters = Filters(tag: Option<string>, author: Option<string>, favorited: Option<string>)

  /** The whole query string; `limit` and `offset` default to 20 and 0 when
      missing. */
  datatype ListQuery = ListQuery(filters: Filters, limit: Option<nat>, offset: Option<nat>)

  function LimitOr20(limit: Option<nat>): nat {
    if limit.Some? then limit.value else 20
  }

  function OffsetOr0(offset: Option<nat>): nat {
    if offset.Some? then offset.value else 0
  }

  /** `ORDER BY created_at DESC`, newer ids first among equal timestamps. */
  function ArticleStamp(a: Article): Stamp {
    Stamp(a.createdAt, a.id)
  }

  predicate AuthoredBy(users: seq<User>, a: Article, username: string) {
    exists u :: u in users && u.id == a.authorId && u.username == username
  }

  predicate FavoritedByName(db: Db, a: Article, username: string) {
    exists u :: u in db.users && u.username == username && (u.id, a.id) in db.favorites
  }

  /** The three filters, each applied only when its parameter is truthy, and
      combined by AND: the article carries the tag, is written by the user
      with that username, and is favorited by the user with that username. */
  predicate MatchesFilters(db: Db, q: Filters, a: Article) {
    && (Truthy(q.tag) ==> q.tag.value in a.tags)
    && (Truthy(q.author) ==> AuthoredBy(db.users, a, q.author.value))
    && (Truthy(q.favorited) ==> FavoritedByName(db, a, q.favorited.value))
  }

  /** The rows `findAndCountAll` counts. */
  function Matching(db: Db, q: Filters): seq<Article> {
    Filter(db.articles, (a: Article) => MatchesFilters(db, q, a))
  }

  /** The rows it returns: the matching rows newest first, then the page. */
  function Listed(db: Db, q: ListQuery): seq<Article> {
    Page(SortNewestFirst(Matching(db, q.filters), ArticleStamp), LimitOr20(q.limit), OffsetOr0(q.offset))
  }

  /** An article annotated for `caller`: favorited and following are false
      with no caller, and otherwise read from the two relations. */
  function ViewFor(db: Db, caller: Option<UserId>, a: Article): ArticleView {
    ArticleViewOf(db, a, FavoritedBy(db, caller, a.id), FollowsAs(db, caller, a.authorId))
  }

  function ViewsFor(db: Db, caller: Option<UserId>, s: seq<Article>): seq<ArticleView> {
    seq(|s|, i requires 0 <= i < |s| => ViewFor(db, caller, s[i]))
  }

  /** `getArticles`: the page of annotated articles, and the number of
      matching articles before paging. */
  function GetArticles(db: Db, caller: Option<UserId>, q: ListQuery): (r: Response)
    ensures r.Reply? && r.status == 200 && r.body.ArticlesBody?
    ensures |r.body.articles| <= LimitOr20(q.limit)
  {
    var rows := Listed(db, q);
    Reply(200, ArticlesBody(ViewsFor(db, caller, rows), |Matching(db, q.filters)|))
  }

  // ---- Properties of the list --------------------------------------------

  /** The listed rows are articles of the store that pass every filter, in
      newest-first order; every article that passes the filters is counted. */
  lemma ListedSpec(db: Db, q: ListQuery)
    ensures forall a :: a in Listed(db, q) ==> a in db.articles && MatchesFilters(db, q.filters, a)
    ensures NewestFirst(Listed(db, q), ArticleStamp)
    ensures forall a :: a in db.articles && MatchesFilters(db, q.filters, a) ==> a in Matching(db, q.filters)
    ensures GetArticles(db, None, q).body.articlesCount == |Matching(db, q.filters)|
  {
    var m := Matching(db, q.filters);
    var sorted := SortNewestFirst(m, ArticleStamp);
    PageNewestFirst(sorted, LimitOr20(q.limit), OffsetOr0(q.offset), ArticleStamp);
    forall a | a in Listed(db, q) ensures a in db.articles && MatchesFilters(db, q.filters, a) {
      assert a in multiset(sorted);
      assert a in m;
    }
  }

  /** `articlesCount` counts the whole filtered set: it does not depend on
      the page asked for, nor on who asks. */
  lemma CountIgnoresPaging(db: Db, c1: Option<UserId>, c2: Option<UserId>, q: ListQuery, limit: Option<nat>, offset: Option<nat>)
    ensures GetArticles(db, c1, q).body.articlesCount == GetArticles(db, c2, q.(limit := limit, offset := offset)).body.articlesCount
  {
  }

  /** With no filter every article is counted. */
  lemma NoFiltersCountsAll(db: Db, q: ListQuery)
    requires !Truthy(q.filters.tag) && !Truthy(q.filters.author) && !Truthy(q.filters.favorited)
    ensures GetArticles(db, None, q).body.articlesCount == |db.articles|
  {
    FilterAll(db.articles, (a: Article) => MatchesFilters(db, q.filters, a));
  }

  /** Without a caller every listed article has favorited and
      author.following false. */
  lemma AnonymousListing(db: Db, q: ListQuery)
    ensures var r := GetArticles(db, None, q);
            forall i :: 0 <= i < |r.body.articles| ==>
              !r.body.articles[i].favorited && !r.body.articles[i].author.following
  {
  }

  /** The n-th listed article is the (offset + n)-th newest matching one. */
  lemma ListedIsWindow(db: Db, q: ListQuery, n: nat)
    requires n < |Listed(db, q)|
    ensures var sorted := SortNewestFirst(Matching(db, q.filters), ArticleStamp);
            OffsetOr0(q.offset) + n < |sorted| && Listed(db, q)[n] == sorted[OffsetOr0(q.offset) + n]
  {
  }

  // ---- The feed -----------------------------------------------------------

  /** The ids the caller follows. */
  function FollowedIds(db: Db, caller: UserId): set<UserId> {
    set p | p in db.follows && p.0 == caller :: p.1
  }

  predicate ByFollowed(db: Db, caller: UserId, a: Article) {
    a.authorId in FollowedIds(db, caller)
  }

  /** `author_id IN followedUserIds`. */
  function FeedRows(db: Db, caller: UserId): seq<Article> {
    Filter(db.articles, (a: Article) => ByFollowed(db, caller, a))
  }

  function FeedListed(db: Db, caller: UserId, limit: Option<nat>, offset: Option<nat>): seq<Article> {
    Page(SortNewestFirst(FeedRows(db, caller), ArticleStamp), LimitOr20(limit), OffsetOr0(offset))
  }

  /** A feed article: favorited read from the relation, the author always
      reported as followed. */
  function FeedView(db: Db, caller: UserId, a: Article): ArticleView {
    ArticleViewOf(db, a, (caller, a.id) in db.favorites, true)
  }

  /** The query path of `getFeed`. */
  function FeedQuery(db: Db, caller: UserId, limit: Option<nat>, offset: Option<nat>): Response {
    var rows := FeedListed(db, caller, limit, offset);
    Reply(200, ArticlesBody(seq(|rows|, i requires 0 <= i < |rows| => FeedView(db, caller, rows[i])),
                            |FeedRows(db, caller)|))
  }

  /** `getFeed` for the authenticated caller: a caller who follows nobody
      gets an empty list and a zero count without the articles being
      queried. */
  function GetFeed(db: Db, caller: UserId, limit: Option<nat>, offset: Option<nat>): (r: Response)
    ensures FollowedIds(db, caller) == {} ==> r == Reply(200, ArticlesBody([], 0))
    ensures FollowedIds(db, caller) != {} ==> r == FeedQuery(db, caller, limit, offset)
  {
    if FollowedIds(db, caller) == {} then Reply(200, ArticlesBody([], 0))
    else FeedQuery(db, caller, limit, offset)
  }

  /** The shortcut answers what the query would have answered. */
  lemma FeedShortcutAgrees(db: Db, caller: UserId, limit: Option<nat>, offset: Option<nat>)
    requires FollowedIds(db, caller) == {}
    ensures GetFeed(db, caller, limit, offset) == FeedQuery(db, caller, limit, offset)
  {
    var rows := FeedRows(db, caller);
    FilterNone(db.articles, (a: Article) => ByFollowed(db, caller, a));
    assert SortNewestFirst(rows, ArticleStamp) == [];
    var listed := FeedListed(db, caller, limit, offset);
    assert listed == [];
    assert seq(|listed|, i requires 0 <= i < |listed| => FeedView(db, caller, listed[i])) == [];
  }

  /** The feed holds only articles by followed authors, newest first, and
      every article by a followed author is counted. */
  lemma FeedSpec(db: Db, caller: UserId, limit: Option<nat>, offset: Option<nat>)
    ensures forall a :: a in FeedListed(db, caller, limit, offset) ==>
              a in db.articles && (caller, a.authorId) in db.follows
    ensures NewestFirst(FeedListed(db, caller, limit, offset), ArticleStamp)
    ensures forall a :: a in db.articles && (caller, a.authorId) in db.follows ==> a in FeedRows(db, caller)
  {
    var m := FeedRows(db, caller);
    var sorted := SortNewestFirst(m, ArticleStamp);
    PageNewestFirst(sorted, LimitOr20(limit), OffsetOr0(offset), ArticleStamp);
    forall a | a in FeedListed(db, caller, limit, offset) ensures a in db.articles && (caller, a.authorId) in db.follows {
      FeedRowFollowed(db, caller, sorted, LimitOr20(limit), OffsetOr0(offset), a);
    }
    forall a | a in db.articles && (caller, a.authorId) in db.follows ensures a in m {
      assert a.authorId in FollowedIds(db, caller);
    }
  }

  lemma FeedRowFollowed(db: Db, caller: UserId, sorted: seq<Article>, limit: nat, offset: nat, a: Article)
    requires sorted == SortNewestFirst(FeedRows(db, caller), ArticleStamp)
    requires a in Page(sorted, limit, offset)
    ensures a in db.articles && (caller, a.authorId) in db.follows
  {
    var i :| 0 <= i < |Page(sorted, limit, offset)| && Page(sorted, limit, offset)[i] == a;
    assert a in multiset(sorted);
    assert a in FeedRows(db, caller);
    assert a.authorId in FollowedIds(db, caller);
    var p :| p in db.follows && p.0 == caller && p.1 == a.authorId;
  }

  /** Every feed article is reported with author.following true. */
  lemma FeedAuthorsFollowed(db: Db, caller: UserId, limit: Option<nat>, offset: Option<nat>)
    ensures var r := GetFeed(db, caller, limit, offset);
            forall i :: 0 <= i < |r.body.articles| ==> r.body.articles[i].author.following
  {
  }

  // ---- A single article ---------------------------------------------------

  /** `getArticle`: 404 'Article not found' for an unknown slug; otherwise
      the article with that slug, annotated for the caller. */
  function GetArticle(db: Db, caller: Option<UserId>, slug: string): (r: Response)
    ensures (forall a :: a in db.articles ==> a.slug != slug) <==> r == Failure(Api(NotFound("Article not found")))
    ensures r.Reply? ==>
              exists a :: a in db.articles && a.slug == slug && r == Reply(200, ArticleBody(ViewFor(db, caller, a)))
  {
    match ArticleIndex(db.articles, slug)
    case None => Failure(Api(NotFound("Article not found")))
    case Some(k) => Reply(200, ArticleBody(ViewFor(db, caller, db.articles[k])))
  }

  /** Under the unique slug index, the article found is the one holding the
      slug; without a caller it is neither favorited nor its author followed. */
  lemma GetArticleOf(db: Db, caller: Option<UserId>, a: Article)
    requires db.Valid() && a in db.articles
    ensures GetArticle(db, caller, a.slug) == Reply(200, ArticleBody(ViewFor(db, caller, a)))
    ensures caller.None? ==> !GetArticle(db, caller, a.slug).body.article.favorited
    ensures caller.None? ==> !GetArticle(db, caller, a.slug).body.article.author.following
  {
    SlugIdentifies(db, a);
  }

  lemma SlugIdentifies(db: Db, a: Article)
    requires db.Valid() && a in db.articles
    ensures ArticleIndex(db.articles, a.slug).Some?
    ensures db.articles[ArticleIndex(db.articles, a.slug).value] == a
  {
    var k := ArticleIndex(db.articles, a.slug).value;
    var i :| 0 <= i < |db.articles| && db.articles[i] == a;
    assert ArticleSlug(db.articles[i]) == ArticleSlug(db.articles[k]);
  }
}
