/** The comment endpoints: the comments of an article (newest first, each
    author annotated for the caller), adding a comment, and deleting one's
    own comment. */
module CommentController {
  import opened Common
  import opened Errors
  import opened Tables
  import opened Schema
  import opened Views
  import opened Ordering
  import opened Database
  import opened ArticleQueries

  /** The sort key of `order: [['created_at', 'DESC']]`. */
  function CommentStamp(c: Comment): Stamp {
    Stamp(c.createdAt, c.id)
  }

  /** The rows of `comments` whose `article_id` is `id`, in table order. */
  function OnArticle(comments: seq<Comment>, id: ArticleId): seq<Comment> {
    Filter(comments, (c: Comment) => c.articleId == id)
  }

  /** `Comment.findAll({where: {article_id: id}, order: created_at DESC})`. */
  function CommentsOf(db: Db, id: ArticleId): seq<Comment> {
    SortNewestFirst(OnArticle(db.comments, id), CommentStamp)
  }

  /** A comment annotated for the caller: its author is followed when the
      caller is known and a follow row exists. */
  function CommentViewFor(db: Db, caller: Option<UserId>, c: Comment): CommentView {
    CommentViewOf(db, c, FollowsAs(db, caller, c.authorId))
  }

  // ---- getComments --------------------------------------------------------

  /** `getComments`: 404 'Article not found' for an unknown slug; otherwise
      the article's comments, newest first, annotated for the caller. */
  function GetComments(db: Db, caller: Option<UserId>, slug: string): (r: Response)
    ensures (forall a :: a in db.articles ==> a.slug != slug) <==> r == Failure(Api(NotFound("Article not found")))
    ensures r.Reply? ==> r.status == 200 && r.body.CommentsBody?
  {
    match ArticleIndex(db.articles, slug)
    case None => Failure(Api(NotFound("Article not found")))
    case Some(k) =>
      var rows := CommentsOf(db, db.articles[k].id);
      Reply(200, CommentsBody(seq(|rows|, i requires 0 <= i < |rows| => CommentViewFor(db, caller, rows[i]))))
  }

  /** The listed comments are exactly the comments of that article, each
      once, newest first. */
  lemma CommentsOfSpec(db: Db, id: ArticleId)
    ensures forall c :: c in CommentsOf(db, id) <==> c in db.comments && c.articleId == id
    ensures multiset(CommentsOf(db, id)) == multiset(OnArticle(db.comments, id))
    ensures NewestFirst(CommentsOf(db, id), CommentStamp)
  {
    var m := OnArticle(db.comments, id);
    forall c | c in CommentsOf(db, id) ensures c in db.comments && c.articleId == id {
      assert c in multiset(CommentsOf(db, id));
      assert c in m;
    }
    forall c | c in db.comments && c.articleId == id ensures c in CommentsOf(db, id) {
      assert c in m;
      assert c in multiset(m);
    }
  }

  /** For an article of the store, the reply lists its comments in that
      order, each annotated for the caller. */
  lemma GetCommentsOf(db: Db, caller: Option<UserId>, a: Article)
    requires db.Valid() && a in db.articles
    ensures var r := GetComments(db, caller, a.slug);
            var rows := CommentsOf(db, a.id);
            && r.Reply? && |r.body.comments| == |rows|
            && forall i :: 0 <= i < |rows| ==> r.body.comments[i] == CommentViewFor(db, caller, rows[i])
  {
    SlugIdentifies(db, a);
  }

  /** A comment author is followed iff the caller is known and the follow
      row exists, so an anonymous caller follows nobody. */
  lemma CommentFollowing(db: Db, caller: Option<UserId>, a: Article)
    requires db.Valid() && a in db.articles
    ensures var r := GetComments(db, caller, a.slug);
            var rows := CommentsOf(db, a.id);
            && r.Reply? && |r.body.comments| == |rows|
            && (forall i :: 0 <= i < |rows| ==>
                  (r.body.comments[i].author.following <==>
                     SignedIn(caller) && (caller.value, rows[i].authorId) in db.follows))
            && (caller.None? ==> forall i :: 0 <= i < |rows| ==> !r.body.comments[i].author.following)
  {
    GetCommentsOf(db, caller, a);
    var r := GetComments(db, caller, a.slug);
    var rows := CommentsOf(db, a.id);
    forall i | 0 <= i < |rows|
      ensures r.body.comments[i].author.following == FollowsAs(db, caller, rows[i].authorId)
    {
      assert r.body.comments[i] == CommentViewFor(db, caller, rows[i]);
    }
  }

  // ---- addComment ---------------------------------------------------------

  /** The error `Comment.create` raises for a body that fails `notEmpty`. */
  const BlankBodyError := Library("SequelizeValidationError", Some([PathMessage("body", "Comment body cannot be empty")]))

  /** Adding a comment to an existing article by an existing user keeps
      the store valid. */
  lemma InsertCommentValid(db: Db, c: Comment)
    requires db.Valid() && c.id == db.nextCommentId && NotBlank(c.body)
    requires c.articleId in ArticleIds(db.articles) && c.authorId in UserIds(db.users)
    ensures db.(comments := db.comments + [c], nextCommentId := db.nextCommentId + 1).Valid()
  {
    AppendUnique(db.comments, c, CommentKey);
  }

  /** The rows on an article after an insert: the new row is last when it
      belongs to that article. */
  lemma {:induction false} OnArticleAppend(comments: seq<Comment>, c: Comment, id: ArticleId)
    ensures OnArticle(comments + [c], id) == OnArticle(comments, id) + (if c.articleId == id then [c] else [])
  {
    if comments != [] {
      OnArticleAppend(comments[1..], c, id);
      assert (comments + [c])[1..] == comments[1..] + [c];
    } else {
      assert OnArticle([c], id) == (if c.articleId == id then [c] else []) + OnArticle([], id);
    }
  }

  /** `addComment` for the authenticated `caller`: 404 for an unknown slug;
      a body that fails `notEmpty` writes nothing; otherwise one comment of
      that article by the caller, and the 201 reply with following=false. */
  method AddComment(s: Store, caller: UserId, slug: string, body: string, nowMs: nat) returns (r: Response)
    requires s.Valid() && caller in UserIds(s.users)
    modifies s
    ensures s.Valid()
    ensures ArticleIndex(old(s.articles), slug).None? ==> r == Failure(Api(NotFound("Article not found"))) && unchanged(s)
    ensures ArticleIndex(old(s.articles), slug).Some? && !NotBlank(body) ==> r == Failure(BlankBodyError) && unchanged(s)
    ensures var k := ArticleIndex(old(s.articles), slug);
            k.Some? && NotBlank(body) ==>
              var c := Comment(old(s.nextCommentId), body, old(s.articles)[k.value].id, caller, nowMs, nowMs);
              && s.Snapshot() == old(s.Snapshot()).(comments := old(s.comments) + [c], nextCommentId := old(s.nextCommentId) + 1)
              && r == Reply(201, CommentBody(CommentViewOf(s.Snapshot(), c, false)))
  {
    var k := ArticleIndex(s.articles, slug);
    if k.None? {
      return Failure(Api(NotFound("Article not found")));
    }
    var article := s.articles[k.value];
    if !NotBlank(body) {
      return Failure(BlankBodyError);
    }
    var c := Comment(s.nextCommentId, body, article.id, caller, nowMs, nowMs);
    assert article in s.articles;
    InsertCommentValid(s.Snapshot(), c);
    s.comments := s.comments + [c];
    s.nextCommentId := s.nextCommentId + 1;
    r := Reply(201, CommentBody(CommentView(c.id, c.body, c.createdAt, c.updatedAt, AuthorProfile(s.users, caller, false))));
  }

  /** A comment just added is listed with its article, which now has one
      comment more; the other articles' comments are as they were. */
  lemma AddedCommentListed(db: Db, c: Comment, id: ArticleId)
    ensures var db' := db.(comments := db.comments + [c]);
            && (c.articleId == id ==> c in CommentsOf(db', id) && |CommentsOf(db', id)| == |CommentsOf(db, id)| + 1)
            && (c.articleId != id ==> multiset(CommentsOf(db', id)) == multiset(CommentsOf(db, id)))
  {
    var db' := db.(comments := db.comments + [c]);
    OnArticleAppend(db.comments, c, id);
    CommentsOfSpec(db', id);
    CommentsOfSpec(db, id);
    if c.articleId == id {
      assert c in db'.comments;
      assert |CommentsOf(db', id)| == |multiset(CommentsOf(db', id))|;
      assert |CommentsOf(db, id)| == |multiset(CommentsOf(db, id))|;
    }
  }

  // ---- deleteComment ------------------------------------------------------

  /** Removing one comment keeps the store valid, and only that comment goes. */
  lemma RemoveCommentValid(db: Db, j: nat)
    requires db.Valid() && j < |db.comments|
    ensures db.(comments := RemoveAt(db.comments, j)).Valid()
    ensures forall c :: c in RemoveAt(db.comments, j) ==> c.id != db.comments[j].id
    ensures forall c :: c in db.comments && c.id != db.comments[j].id ==> c in RemoveAt(db.comments, j)
  {
    RemoveAtUnique(db.comments, j, CommentKey);
    forall c | c in RemoveAt(db.comments, j) ensures c in db.comments && c.id != db.comments[j].id {
      RemoveAtMembers(db.comments, j, c);
      RemoveAtKeyGone(db.comments, j, CommentKey, c);
    }
    forall c | c in db.comments && c.id != db.comments[j].id ensures c in RemoveAt(db.comments, j) {
      RemoveAtMembers(db.comments, j, c);
    }
  }

  /** `deleteComment` for the authenticated `caller`: 404 'Article not
      found' for an unknown slug, then 404 'Comment not found' unless the
      comment belongs to that article (a comment of another article is not
      found, not forbidden), then 403 unless the caller wrote it; otherwise
      exactly that comment is removed. */
  method DeleteComment(s: Store, caller: UserId, slug: string, id: CommentId) returns (r: Response)
    requires s.Valid()
    modifies s
    ensures s.Valid()
    ensures ArticleIndex(old(s.articles), slug).None? ==> r == Failure(Api(NotFound("Article not found"))) && unchanged(s)
    ensures var k := ArticleIndex(old(s.articles), slug);
            k.Some? && CommentIndex(old(s.comments), id, old(s.articles)[k.value].id).None? ==>
              r == Failure(Api(NotFound("Comment not found"))) && unchanged(s)
    ensures var k := ArticleIndex(old(s.articles), slug);
            k.Some? && CommentIndex(old(s.comments), id, old(s.articles)[k.value].id).Some? ==>
              var j := CommentIndex(old(s.comments), id, old(s.articles)[k.value].id).value;
              && (old(s.comments)[j].authorId != caller ==>
                    r == Failure(Api(Forbidden("You are not authorized to delete this comment"))) && unchanged(s))
              && (old(s.comments)[j].authorId == caller ==>
                    && s.Snapshot() == old(s.Snapshot()).(comments := RemoveAt(old(s.comments), j))
                    && r == Reply(200, Notice("Comment deleted successfully")))
  {
    var k := ArticleIndex(s.articles, slug);
    if k.None? {
      return Failure(Api(NotFound("Article not found")));
    }
    var article := s.articles[k.value];
    var j := CommentIndex(s.comments, id, article.id);
    if j.None? {
      return Failure(Api(NotFound("Comment not found")));
    }
    var comment := s.comments[j.value];
    if comment.authorId != caller {
      return Failure(Api(Forbidden("You are not authorized to delete this comment")));
    }
    RemoveCommentValid(s.Snapshot(), j.value);
    s.comments := RemoveAt(s.comments, j.value);
    r := Reply(200, Notice("Comment deleted successfully"));
  }
}
