/** The writing handlers of `ArticleController`: create, update and delete
    an article, favorite and unfavorite it, and the tag get-or-create that
    create and update share. Every reply that carries an article (create,
    update, favorite, unfavorite) is the article as `getArticle` would show
    it to the caller right afterwards; delete replies with a notice. */
module ArticleController {
  import opened Common
  import opened Errors
  import opened Tables
  import opened Schema
  import opened ArticleModel
  import opened Views
  import opened ArticleQueries
  import opened Database

  // ---- Tags ---------------------------------------------------------------

  /** `tagName.trim().toLowerCase()`. */
  function NormaliseTag(name: string): string {
    AsciiLower(Trim(name))
  }

  /** A normalised name is blank exactly when it is '', exactly when the
      name it came from is blank. */
  lemma NormaliseTagBlank(name: string)
    ensures NotBlank(NormaliseTag(name)) <==> NotBlank(name)
    ensures NotBlank(NormaliseTag(name)) <==> NormaliseTag(name) != ""
  {
    var t := Trim(name);
    TrimSpec(name);
    AsciiLowerBlank(t);
    if t != [] {
      assert !IsJsSpace(t[0]);
    }
  }

  /** `tagList.map(n => n.trim().toLowerCase())`. */
  function Normalised(names: seq<string>): seq<string>
    decreases |names|
  {
    if names == [] then []
    else Normalised(names[..|names| - 1]) + [NormaliseTag(names[|names| - 1])]
  }

  /** The error `Tag.findOrCreate` raises for a blank name. */
  const TagNameError := Library("SequelizeValidationError", Some([PathMessage("name", "Tag name cannot be empty")]))

  /** `Tag.findOrCreate({where: {name}})` on the tag table: found, or
      created when the name passes `notEmpty`. */
  function GetOrCreate(tags: seq<string>, name: string): seq<string> {
    if name in tags || !NotBlank(name) then tags else tags + [name]
  }

  /** Get-or-create of each name in turn. */
  function GetOrCreateAll(tags: seq<string>, names: seq<string>): seq<string>
    decreases |names|
  {
    if names == [] then tags
    else GetOrCreate(GetOrCreateAll(tags, names[..|names| - 1]), names[|names| - 1])
  }

  /** Get-or-create keeps the tag names unique and keeps the existing
      names, in order, in front. */
  lemma GetOrCreateValid(tags: seq<string>, name: string)
    requires TagsValid(tags)
    ensures TagsValid(GetOrCreate(tags, name))
    ensures |tags| <= |GetOrCreate(tags, name)| && GetOrCreate(tags, name)[..|tags|] == tags
  {
    if name !in tags && NotBlank(name) {
      forall y | y in tags ensures TagName(y) != TagName(name) { }
      AppendUnique(tags, name, TagName);
    }
  }

  lemma {:induction false} GetOrCreateAllValid(tags: seq<string>, names: seq<string>)
    requires TagsValid(tags)
    ensures TagsValid(GetOrCreateAll(tags, names))
    ensures |tags| <= |GetOrCreateAll(tags, names)| && GetOrCreateAll(tags, names)[..|tags|] == tags
    decreases |names|
  {
    if names != [] {
      var init := names[..|names| - 1];
      GetOrCreateAllValid(tags, init);
      var mid := GetOrCreateAll(tags, init);
      GetOrCreateValid(mid, names[|names| - 1]);
      assert GetOrCreate(mid, names[|names| - 1])[..|tags|] == mid[..|tags|];
    }
  }

  lemma GetOrCreateNames(tags: seq<string>, name: string)
    ensures TagSet(GetOrCreate(tags, name)) == TagSet(tags) + (if NotBlank(name) then {name} else {})
  {
  }

  /** Get-or-create adds exactly the non-blank names not already present. */
  lemma {:induction false} GetOrCreateAllNames(tags: seq<string>, names: seq<string>)
    ensures TagSet(GetOrCreateAll(tags, names)) == TagSet(tags) + (set n | n in names && NotBlank(n))
    decreases |names|
  {
    if names != [] {
      var init := names[..|names| - 1];
      var last := names[|names| - 1];
      GetOrCreateAllNames(tags, init);
      GetOrCreateNames(GetOrCreateAll(tags, init), last);
      assert names == init + [last];
      assert (set n | n in names && NotBlank(n)) ==
             (set n | n in init && NotBlank(n)) + (if NotBlank(last) then {last} else {});
    }
  }

  /** `findOrCreate` on the store's tag table; `Some` is the validation error
      of a blank name. */
  method FindOrCreateTag(s: Store, name: string) returns (err: Option<Thrown>)
    requires TagsValid(s.tags)
    modifies s
    ensures s.Snapshot() == old(s.Snapshot()).(tags := GetOrCreate(old(s.tags), name))
    ensures err.Some? <==> !NotBlank(name)
    ensures err.Some? ==> err.value == TagNameError
  {
    if name in s.tags {
      return None;
    }
    if !NotBlank(name) {
      return Some(TagNameError);
    }
    s.tags := s.tags + [name];
    err := None;
  }

  /** The `Promise.all` over the tag list, in list order: every name is
      normalised and got-or-created. The result is the array of tag names
      for `setTags`, and the error when some name is blank (the other names
      are created all the same). */
  method TagsFor(s: Store, tagList: seq<string>) returns (found: seq<string>, err: Option<Thrown>)
    requires TagsValid(s.tags)
    modifies s
    ensures s.Snapshot() == old(s.Snapshot()).(tags := GetOrCreateAll(old(s.tags), Normalised(tagList)))
    ensures TagsValid(s.tags)
    ensures found == Normalised(tagList)
    ensures err.None? <==> NoBlankTag(tagList)
    ensures err.Some? ==> err.value == TagNameError
  {
    found := [];
    err := None;
    var i := 0;
    while i < |tagList|
      invariant 0 <= i <= |tagList|
      invariant found == Normalised(tagList[..i])
      invariant s.Snapshot() == old(s.Snapshot()).(tags := GetOrCreateAll(old(s.tags), found))
      invariant err.None? <==> NoBlankTag(tagList[..i])
      invariant err.Some? ==> err.value == TagNameError
    {
      GetOrCreateAllValid(old(s.tags), found);
      var name := NormaliseTag(tagList[i]);
      NormaliseTagBlank(tagList[i]);
      NoBlankTagStep(tagList, i);
      assert tagList[..i + 1][..i] == tagList[..i];
      var e := FindOrCreateTag(s, name);
      if e.Some? {
        err := e;
      }
      found := found + [name];
      i := i + 1;
    }
    assert tagList[..i] == tagList;
    GetOrCreateAllValid(old(s.tags), found);
  }

  /** A prefix one name longer has no blank name exactly when the shorter
      one has none and the added name is not blank. */
  lemma NoBlankTagStep(tagList: seq<string>, i: nat)
    requires i < |tagList|
    ensures NoBlankTag(tagList[..i + 1]) <==> NoBlankTag(tagList[..i]) && NotBlank(tagList[i])
  {
    var p := tagList[..i + 1];
    assert p[i] == tagList[i];
    assert forall j :: 0 <= j < i ==> p[j] == tagList[..i][j];
  }

  /** The normalised list has one entry per name, in order. */
  lemma {:induction false} NormalisedSpec(names: seq<string>)
    ensures |Normalised(names)| == |names|
    ensures forall i :: 0 <= i < |names| ==> Normalised(names)[i] == NormaliseTag(names[i])
    decreases |names|
  {
    if names != [] {
      NormalisedSpec(names[..|names| - 1]);
    }
  }

  /** When no name is blank, every normalised name is a non-blank tag name. */
  lemma NormalisedNotBlank(names: seq<string>)
    requires forall i :: 0 <= i < |names| ==> NotBlank(names[i])
    ensures forall n :: n in Normalised(names) ==> NotBlank(n)
  {
    NormalisedSpec(names);
    forall n | n in Normalised(names) ensures NotBlank(n) {
      var i :| 0 <= i < |names| && Normalised(names)[i] == n;
      NormaliseTagBlank(names[i]);
    }
  }

  /** Get-or-create never loses a tag name. */
  lemma TagTableGrows(tags: seq<string>, names: seq<string>)
    ensures TagSet(tags) <= TagSet(GetOrCreateAll(tags, names))
  {
    GetOrCreateAllNames(tags, names);
  }

  /** After get-or-create of names that are all non-blank, each of them is
      in the tag table. */
  lemma TagTableCovers(tags: seq<string>, names: seq<string>)
    requires forall n :: n in names ==> NotBlank(n)
    ensures TagSet(names) <= TagSet(GetOrCreateAll(tags, names))
  {
    GetOrCreateAllNames(tags, names);
  }

  // ---- Store invariants under the writes ----------------------------------

  lemma ArticleIdsAppend(articles: seq<Article>, a: Article)
    ensures ArticleIds(articles + [a]) == ArticleIds(articles) + {a.id}
  {
    assert forall b :: b in articles + [a] <==> b in articles || b == a;
  }

  lemma ArticleIdsReplace(articles: seq<Article>, k: nat, b: Article)
    requires k < |articles| && b.id == articles[k].id
    ensures ArticleIds(articles[k := b]) == ArticleIds(articles)
  {
    var r := articles[k := b];
    forall id | id in ArticleIds(articles) ensures id in ArticleIds(r) {
      var w :| w in articles && w.id == id;
      var i :| 0 <= i < |articles| && articles[i] == w;
      assert r[i].id == id;
    }
    forall id | id in ArticleIds(r) ensures id in ArticleIds(articles) {
      var w :| w in r && w.id == id;
      var i :| 0 <= i < |r| && r[i] == w;
      assert articles[i].id == id;
    }
  }

  /** Inserting a valid row with the next id and a slug no row holds keeps
      the store valid. */
  lemma InsertArticleValid(db: Db, a: Article)
    requires db.Valid()
    requires a.id == db.nextArticleId
    requires ArticleRowValid(a, db.nextArticleId + 1, UserIds(db.users), TagSet(db.tags))
    requires forall b :: b in db.articles ==> b.slug != a.slug
    ensures db.(articles := db.articles + [a], nextArticleId := db.nextArticleId + 1).Valid()
  {
    ArticleIdsAppend(db.articles, a);
    AppendUnique(db.articles, a, ArticleKey);
    AppendUnique(db.articles, a, ArticleSlug);
  }

  /** Replacing a row by a valid one with the same id and slug keeps the
      store valid. */
  lemma ReplaceArticleValid(db: Db, k: nat, b: Article)
    requires db.Valid() && k < |db.articles|
    requires b.id == db.articles[k].id && b.slug == db.articles[k].slug
    requires ArticleRowValid(b, db.nextArticleId, UserIds(db.users), TagSet(db.tags))
    ensures db.(articles := db.articles[k := b]).Valid()
  {
    var articles := db.articles;
    ArticleIdsReplace(articles, k, b);
    forall j | 0 <= j < |articles| && j != k ensures ArticleKey(articles[j]) != ArticleKey(b) {
      assert ArticleKey(articles[j]) != ArticleKey(articles[k]);
    }
    ReplaceUnique(articles, k, b, ArticleKey);
    forall j | 0 <= j < |articles| && j != k ensures ArticleSlug(articles[j]) != ArticleSlug(b) {
      assert ArticleSlug(articles[j]) != ArticleSlug(articles[k]);
    }
    ReplaceUnique(articles, k, b, ArticleSlug);
  }

  /** A tag table that keeps every name (and stays valid) keeps the store valid. */
  lemma GrowTagsValid(db: Db, tags: seq<string>)
    requires db.Valid() && TagsValid(tags) && TagSet(db.tags) <= TagSet(tags)
    ensures db.(tags := tags).Valid()
  {
  }

  /** A freshly inserted article (its id was the next one) has no
      favorites, is not favorited by its author, and its author does not
      follow themselves; so the constant flags and count of the create reply
      are what `getArticle` reports. */
  lemma CreatedArticleView(db: Db, db': Db, a: Article)
    requires db.Valid() && db'.Valid() && a in db'.articles
    requires a.id == db.nextArticleId && db'.favorites == db.favorites && db'.follows == db.follows
    ensures FavoritesCount(db'.favorites, a.id) == 0
    ensures GetArticle(db', Some(a.authorId), a.slug) == Reply(200, ArticleBody(ArticleViewOf(db', a, false, false)))
  {
    SlugIdentifies(db', a);
    forall p | p in db.favorites ensures p.1 != a.id {
      var b :| b in db.articles && b.id == p.1;
    }
    assert FavoriteRows(db.favorites, a.id) == {};
  }

  // ---- createArticle ------------------------------------------------------

  /** The slug the hook leaves on a new article: none when the title is ''. */
  function HookSlug(slugify: Slugifier, title: string, nowMs: nat): Option<string> {
    if title != "" then Some(NewSlug(slugify, title, nowMs)) else None
  }

  /** The error the unique index on `slug` raises. */
  const UniqueSlugError := Library("SequelizeUniqueConstraintError", Some([PathMessage("slug", "slug must be unique")]))

  predicate NoBlankTag(tagList: seq<string>) {
    forall i :: 0 <= i < |tagList| ==> NotBlank(tagList[i])
  }

  /** The outcome of `Article.create` up to the insert: the row to insert,
      or the error that stops it. */
  datatype Built = Built(article: Article) | Refused(error: Thrown)

  /** The build, hook and validation steps of `Article.create`, and the
      unique slug index: nothing is written. */
  method BuildArticle(articles: seq<Article>, nextId: ArticleId, caller: UserId,
                      title: string, description: string, body: string, slugify: Slugifier, nowMs: nat)
    returns (b: Built)
    ensures var slug := HookSlug(slugify, title, nowMs);
            var issues := ArticleIssues(slug, title, description, body, None);
            && (issues != [] ==> b == Refused(Library("SequelizeValidationError", Some(issues))))
            && (issues == [] && ArticleIndex(articles, slug.value).Some? ==> b == Refused(UniqueSlugError))
            && (issues == [] && ArticleIndex(articles, slug.value).None? ==>
                  b == Built(Article(nextId, slug.value, title, description, body, caller, {}, nowMs, nowMs)))
    ensures var slug := HookSlug(slugify, title, nowMs);
            b.Built? <==> ArticleIssues(slug, title, description, body, None) == [] && ArticleIndex(articles, slug.value).None?
    ensures b.Built? ==> b.article.slug != "" && NotBlank(title) && NotBlank(description) && NotBlank(body)
  {
    var rec := new ArticleRecord.Build(title, description, body);
    rec.BeforeValidate(slugify, nowMs);
    var issues := rec.Issues();
    if issues != [] {
      return Refused(Library("SequelizeValidationError", Some(issues)));
    }
    var slug := rec.slug.value;
    if ArticleIndex(articles, slug).Some? {
      return Refused(UniqueSlugError);
    }
    assert slug == slugify(title) + "-" + Last6(Decimal(nowMs));
    b := Built(Article(nextId, slug, title, description, body, caller, {}, nowMs, nowMs));
  }

  /** The store after the insert of the article row `a`. */
  function Inserted(db: Db, a: Article): Db {
    db.(articles := db.articles + [a], nextArticleId := db.nextArticleId + 1)
  }

  /** The normalised list holds the normalised form of each name and
      nothing else. */
  lemma NormalisedMembers(names: seq<string>)
    ensures forall t :: t in Normalised(names) <==> exists i :: 0 <= i < |names| && t == NormaliseTag(names[i])
  {
    NormalisedSpec(names);
    var found := Normalised(names);
    forall t | t in found ensures exists i :: 0 <= i < |names| && t == NormaliseTag(names[i]) {
      var i :| 0 <= i < |found| && found[i] == t;
    }
    forall i | 0 <= i < |names| ensures NormaliseTag(names[i]) in found {
      assert found[i] == NormaliseTag(names[i]);
    }
  }

  /** The attached tags are exactly the normalised names, whatever the
      article had before (a replacement, not a merge); the tag table gains
      exactly those names; no other article and no other column changes. */
  lemma WithTagsSpec(db: Db, k: nat, tagList: seq<string>)
    requires k < |db.articles| && NoBlankTag(tagList)
    ensures var d := WithTags(db, k, tagList);
            && (forall t :: t in d.articles[k].tags <==> exists i :: 0 <= i < |tagList| && t == NormaliseTag(tagList[i]))
            && TagSet(d.tags) == TagSet(db.tags) + d.articles[k].tags
            && |d.articles| == |db.articles|
            && (forall j :: 0 <= j < |db.articles| && j != k ==> d.articles[j] == db.articles[j])
            && d.articles[k] == db.articles[k].(tags := d.articles[k].tags)
  {
    var d := WithTags(db, k, tagList);
    assert d.articles[k].tags == TagSet(Normalised(tagList));
    assert d.tags == GetOrCreateAll(db.tags, Normalised(tagList));
    TagListNames(db.tags, tagList);
  }

  /** The names a tag list contributes, and the tag table after their
      get-or-create. */
  lemma TagListNames(tags: seq<string>, tagList: seq<string>)
    requires NoBlankTag(tagList)
    ensures forall t :: t in TagSet(Normalised(tagList)) <==> exists i :: 0 <= i < |tagList| && t == NormaliseTag(tagList[i])
    ensures TagSet(GetOrCreateAll(tags, Normalised(tagList))) == TagSet(tags) + TagSet(Normalised(tagList))
  {
    var found := Normalised(tagList);
    NormalisedMembers(tagList);
    NormalisedNotBlank(tagList);
    GetOrCreateAllNames(tags, found);
    assert (set n | n in found && NotBlank(n)) == TagSet(found);
  }

  /** The insert of a built row: its id is the next one and its slug is
      free, so the store stays valid. */
  method InsertArticle(s: Store, a: Article)
    requires s.Valid() && a.id == s.nextArticleId
    requires ArticleRowValid(a, s.nextArticleId + 1, UserIds(s.users), TagSet(s.tags))
    requires forall b :: b in s.articles ==> b.slug != a.slug
    modifies s
    ensures s.Snapshot() == Inserted(old(s.Snapshot()), a)
    ensures s.Valid()
  {
    InsertArticleValid(s.Snapshot(), a);
    s.articles := s.articles + [a];
    s.nextArticleId := s.nextArticleId + 1;
  }

  /** The tags of the `k`-th article replaced by the normalised names of
      `tagList`, after their get-or-create. */
  function WithTags(db: Db, k: nat, tagList: seq<string>): Db
    requires k < |db.articles|
  {
    db.(tags := GetOrCreateAll(db.tags, Normalised(tagList)),
        articles := db.articles[k := db.articles[k].(tags := TagSet(Normalised(tagList)))])
  }

  /** The get-or-create of any names keeps the store valid; attaching them
      to an article does too when none is blank. */
  lemma TagsAttachedValid(db: Db, k: nat, tagList: seq<string>)
    requires db.Valid() && k < |db.articles|
    ensures db.(tags := GetOrCreateAll(db.tags, Normalised(tagList))).Valid()
    ensures NoBlankTag(tagList) ==> WithTags(db, k, tagList).Valid()
  {
    var found := Normalised(tagList);
    var tags := GetOrCreateAll(db.tags, found);
    GetOrCreateAllValid(db.tags, found);
    TagTableGrows(db.tags, found);
    GrowTagsValid(db, tags);
    if NoBlankTag(tagList) {
      NormalisedNotBlank(tagList);
      TagTableCovers(db.tags, found);
      var grown := db.(tags := tags);
      assert db.articles[k] in db.articles;
      ReplaceArticleValid(grown, k, db.articles[k].(tags := TagSet(found)));
      assert WithTags(db, k, tagList) == grown.(articles := grown.articles[k := db.articles[k].(tags := TagSet(found))]);
    }
  }

  /** `article.setTags(tags)` after the get-or-create of `tagList`: the
      `k`-th article's tags become exactly the normalised names, whatever
      they were before; with a blank name the association is left alone. */
  method SetTags(s: Store, k: nat, tagList: seq<string>) returns (err: Option<Thrown>)
    requires s.Valid() && k < |s.articles|
    modifies s
    ensures NoBlankTag(tagList) ==> err.None? && s.Snapshot() == WithTags(old(s.Snapshot()), k, tagList)
    ensures !NoBlankTag(tagList) ==>
              err == Some(TagNameError)
              && s.Snapshot() == old(s.Snapshot()).(tags := GetOrCreateAll(old(s.tags), Normalised(tagList)))
    ensures s.Valid()
  {
    ghost var before := s.Snapshot();
    TagsAttachedValid(before, k, tagList);
    var found;
    found, err := TagsFor(s, tagList);
    if err.Some? {
      return;
    }
    s.articles := s.articles[k := s.articles[k].(tags := TagSet(found))];
    assert s.Snapshot() == WithTags(before, k, tagList);
  }

  /** The writes of `createArticle` once the row is built: the insert,
      then (for a non-empty `tagList`) the tags, then the 201 reply. */
  method StoreArticle(s: Store, a: Article, tagList: seq<string>) returns (r: Response)
    requires s.Valid() && a.id == s.nextArticleId
    requires ArticleRowValid(a, s.nextArticleId + 1, UserIds(s.users), TagSet(s.tags))
    requires forall b :: b in s.articles ==> b.slug != a.slug
    modifies s
    ensures s.Valid()
    ensures tagList == [] ==>
              && s.Snapshot() == Inserted(old(s.Snapshot()), a)
              && r.Reply? && r.status == 201 && GetArticle(s.Snapshot(), Some(a.authorId), a.slug) == Reply(200, r.body)
    ensures tagList != [] && NoBlankTag(tagList) ==>
              && s.Snapshot() == WithTags(Inserted(old(s.Snapshot()), a), |old(s.articles)|, tagList)
              && r.Reply? && r.status == 201 && GetArticle(s.Snapshot(), Some(a.authorId), a.slug) == Reply(200, r.body)
    ensures !NoBlankTag(tagList) ==>
              && s.Snapshot() == Inserted(old(s.Snapshot()), a).(tags := GetOrCreateAll(old(s.tags), Normalised(tagList)))
              && r == Failure(TagNameError)
  {
    ghost var before := s.Snapshot();
    var article := a;
    InsertArticle(s, article);
    if |tagList| > 0 {
      var k := |s.articles| - 1;
      var err := SetTags(s, k, tagList);
      if err.Some? {
        return Failure(err.value);
      }
      article := s.articles[k];
    }
    ghost var final := s.Snapshot();
    assert article in final.articles && article.slug == a.slug && article.authorId == a.authorId;
    CreatedArticleView(before, final, article);
    r := Reply(201, ArticleBody(ArticleView(article.slug, article.title, article.description, article.body, article.tags,
                                            article.createdAt, article.updatedAt, false, 0,
                                            AuthorProfile(s.users, a.authorId, false))));
  }

  /** `createArticle` for the authenticated `caller`, after the request
      validation: `Article.create` (slug hook, then every column validated,
      then the unique slug index), then the tags. A blank tag name fails
      after the article row is written, which then has no tags. The 201
      reply's constant favorited=false, favoritesCount=0 and
      following=false are what `getArticle` reports to the author. */
  method CreateArticle(s: Store, caller: UserId, title: string, description: string, body: string,
                       tagList: seq<string>, slugify: Slugifier, nowMs: nat) returns (r: Response)
    requires s.Valid() && caller in UserIds(s.users)
    modifies s
    ensures s.Valid()
    ensures var issues := ArticleIssues(HookSlug(slugify, title, nowMs), title, description, body, None);
            issues != [] ==> r == Failure(Library("SequelizeValidationError", Some(issues))) && unchanged(s)
    ensures var slug := HookSlug(slugify, title, nowMs);
            ArticleIssues(slug, title, description, body, None) == [] && ArticleIndex(old(s.articles), slug.value).Some? ==>
              r == Failure(UniqueSlugError) && unchanged(s)
    ensures var slug := HookSlug(slugify, title, nowMs);
            ArticleIssues(slug, title, description, body, None) == [] && ArticleIndex(old(s.articles), slug.value).None? ==>
              var a := Article(old(s.nextArticleId), slug.value, title, description, body, caller, {}, nowMs, nowMs);
              var inserted := Inserted(old(s.Snapshot()), a);
              && (tagList == [] ==>
                    s.Snapshot() == inserted
                    && r.Reply? && r.status == 201 && GetArticle(s.Snapshot(), Some(caller), a.slug) == Reply(200, r.body))
              && (tagList != [] && NoBlankTag(tagList) ==>
                    && s.Snapshot() == WithTags(inserted, |old(s.articles)|, tagList)
                    && r.Reply? && r.status == 201 && GetArticle(s.Snapshot(), Some(caller), a.slug) == Reply(200, r.body))
              && (!NoBlankTag(tagList) ==>
                    && s.Snapshot() == inserted.(tags := GetOrCreateAll(old(s.tags), Normalised(tagList)))
                    && r == Failure(TagNameError))
  {
    var built := BuildArticle(s.articles, s.nextArticleId, caller, title, description, body, slugify, nowMs);
    if built.Refused? {
      return Failure(built.error);
    }
    r := StoreArticle(s, built.article, tagList);
  }

  // ---- updateArticle ------------------------------------------------------

  /** The row after `if (title) article.title = title` and the same for
      description and body: a falsy field leaves its column as it was, and
      nothing else is assigned. */
  function EditedArticle(a: Article, title: Field, description: Field, body: Field): (e: Article)
    ensures e.id == a.id && e.slug == a.slug && e.authorId == a.authorId && e.tags == a.tags
    ensures e.createdAt == a.createdAt && e.updatedAt == a.updatedAt
    ensures e.title == (if TruthyField(title) then title.text else a.title)
    ensures e.description == (if TruthyField(description) then description.text else a.description)
    ensures e.body == (if TruthyField(body) then body.text else a.body)
    ensures !TruthyField(title) && !TruthyField(description) && !TruthyField(body) ==> e == a
  {
    a.(title := if TruthyField(title) then title.text else a.title,
       description := if TruthyField(description) then description.text else a.description,
       body := if TruthyField(body) then body.text else a.body)
  }

  /** The row `save` writes: with the edits, and `updated_at` set to the
      save time only when some column changed. */
  function SavedArticle(a: Article, e: Article, nowMs: nat): Article {
    if e == a then a else e.(updatedAt := nowMs)
  }

  /** `article.save()` on the loaded row after the assignments: the hook
      keeps the existing slug, only the changed columns are validated, and
      nothing is written when nothing changed. */
  method SaveEdits(a: Article, title: Field, description: Field, body: Field, slugify: Slugifier, nowMs: nat)
    returns (b: Built)
    requires a.slug != ""
    ensures var e := EditedArticle(a, title, description, body);
            var issues := ArticleIssues(Some(a.slug), e.title, e.description, e.body, Some(a));
            && (issues != [] ==> b == Refused(Library("SequelizeValidationError", Some(issues))))
            && (issues == [] ==> b == Built(SavedArticle(a, e, nowMs)))
  {
    var rec := new ArticleRecord.Load(a);
    if TruthyField(title) { rec.title := title.text; }
    if TruthyField(description) { rec.description := description.text; }
    if TruthyField(body) { rec.body := body.text; }
    rec.BeforeValidate(slugify, nowMs);
    ghost var e := EditedArticle(a, title, description, body);
    assert rec.slug == Some(a.slug) && rec.loaded == Some(a);
    assert rec.title == e.title && rec.description == e.description && rec.body == e.body;
    var issues := rec.Issues();
    if issues != [] {
      return Refused(Library("SequelizeValidationError", Some(issues)));
    }
    var saved := a.(title := rec.title, description := rec.description, body := rec.body);
    assert saved == e;
    if saved != a {
      saved := saved.(updatedAt := nowMs);
    }
    b := Built(saved);
  }

  /** A save that passed validation leaves a valid row: every column it
      did not validate is the loaded row's own. */
  lemma SavedArticleValid(a: Article, title: Field, description: Field, body: Field, nowMs: nat,
                          nextId: nat, userIds: set<UserId>, tags: set<string>)
    requires ArticleRowValid(a, nextId, userIds, tags)
    requires var e := EditedArticle(a, title, description, body);
             ArticleIssues(Some(a.slug), e.title, e.description, e.body, Some(a)) == []
    ensures var s := SavedArticle(a, EditedArticle(a, title, description, body), nowMs);
            && ArticleRowValid(s, nextId, userIds, tags)
            && s.id == a.id && s.slug == a.slug && s.authorId == a.authorId && s.tags == a.tags
            && s.createdAt == a.createdAt
            && (s.updatedAt == a.updatedAt || s.updatedAt == nowMs)
  {
  }

  /** The replacement of the `k`-th row by a valid row with the same keys. */
  method ReplaceArticle(s: Store, k: nat, b: Article)
    requires s.Valid() && k < |s.articles|
    requires b.id == s.articles[k].id && b.slug == s.articles[k].slug
    requires ArticleRowValid(b, s.nextArticleId, UserIds(s.users), TagSet(s.tags))
    modifies s
    ensures s.Snapshot() == old(s.Snapshot()).(articles := old(s.articles)[k := b])
    ensures s.Valid()
  {
    ReplaceArticleValid(s.Snapshot(), k, b);
    s.articles := s.articles[k := b];
  }

  /** An article as `getArticle` shows it to its own author: favorited
      when the author favorited it, and never following, since nobody
      follows themselves. */
  lemma OwnArticleView(db: Db, k: nat)
    requires db.Valid() && k < |db.articles|
    ensures var a := db.articles[k];
            GetArticle(db, Some(a.authorId), a.slug)
              == Reply(200, ArticleBody(ArticleViewOf(db, a, (a.authorId, a.id) in db.favorites, false)))
  {
    var a := db.articles[k];
    assert a in db.articles;
    assert a.authorId in UserIds(db.users);
    CallerArticleView(db, a.authorId, k);
    assert (a.authorId, a.authorId) !in db.follows;
  }

  /** The writes of `updateArticle` once the save passed validation: the
      row, then (for an array `tagList`, even an empty one) the tags, then
      the reply built as for the author. */
  method StoreEdits(s: Store, k: nat, b: Article, tagList: ListField) returns (r: Response)
    requires s.Valid() && k < |s.articles|
    requires b.id == s.articles[k].id && b.slug == s.articles[k].slug && b.authorId == s.articles[k].authorId
    requires ArticleRowValid(b, s.nextArticleId, UserIds(s.users), TagSet(s.tags))
    modifies s
    ensures s.Valid()
    ensures var saved := old(s.Snapshot()).(articles := old(s.articles)[k := b]);
            && (!tagList.List? ==> s.Snapshot() == saved)
            && (tagList.List? && NoBlankTag(tagList.items) ==> s.Snapshot() == WithTags(saved, k, tagList.items))
            && (tagList.List? && !NoBlankTag(tagList.items) ==>
                  s.Snapshot() == saved.(tags := GetOrCreateAll(old(s.tags), Normalised(tagList.items))))
    ensures tagList.List? && !NoBlankTag(tagList.items) ==> r == Failure(TagNameError)
    ensures !tagList.List? || NoBlankTag(tagList.items) ==>
              r.Reply? && r.status == 200 && GetArticle(s.Snapshot(), Some(b.authorId), b.slug) == Reply(200, r.body)
  {
    ReplaceArticle(s, k, b);
    if tagList.List? {
      var err := SetTags(s, k, tagList.items);
      if err.Some? {
        return Failure(err.value);
      }
    }
    var a := s.articles[k];
    OwnArticleView(s.Snapshot(), k);
    r := Reply(200, ArticleBody(ArticleView(a.slug, a.title, a.description, a.body, a.tags, a.createdAt, a.updatedAt,
                                            (b.authorId, a.id) in s.favorites, FavoritesCount(s.favorites, a.id),
                                            AuthorProfile(s.users, a.authorId, false))));
  }

  /** `updateArticle` for the authenticated `caller`: 404 for an unknown
      slug, 403 unless the caller wrote the article, then the save of the
      truthy fields and, when `tagList` is an array, the full replacement
      of the article's tags (an empty array removes them all). The reply is
      what `getArticle` then shows the author. */
  method UpdateArticle(s: Store, caller: UserId, slug: string, title: Field, description: Field, body: Field,
                       tagList: ListField, slugify: Slugifier, nowMs: nat) returns (r: Response)
    requires s.Valid() && caller in UserIds(s.users)
    modifies s
    ensures s.Valid()
    ensures ArticleIndex(old(s.articles), slug).None? ==> r == Failure(Api(NotFound("Article not found"))) && unchanged(s)
    ensures var k := ArticleIndex(old(s.articles), slug);
            k.Some? && old(s.articles)[k.value].authorId != caller ==>
              r == Failure(Api(Forbidden("You are not authorized to update this article"))) && unchanged(s)
    ensures var k := ArticleIndex(old(s.articles), slug);
            k.Some? && old(s.articles)[k.value].authorId == caller ==>
              var a := old(s.articles)[k.value];
              var e := EditedArticle(a, title, description, body);
              var issues := ArticleIssues(Some(a.slug), e.title, e.description, e.body, Some(a));
              && (issues != [] ==> r == Failure(Library("SequelizeValidationError", Some(issues))) && unchanged(s))
              && (issues == [] ==>
                    var saved := old(s.Snapshot()).(articles := old(s.articles)[k.value := SavedArticle(a, e, nowMs)]);
                    && (!tagList.List? ==> s.Snapshot() == saved)
                    && (tagList.List? && NoBlankTag(tagList.items) ==> s.Snapshot() == WithTags(saved, k.value, tagList.items))
                    && (tagList.List? && !NoBlankTag(tagList.items) ==>
                          s.Snapshot() == saved.(tags := GetOrCreateAll(old(s.tags), Normalised(tagList.items)))
                          && r == Failure(TagNameError))
                    && (!tagList.List? || NoBlankTag(tagList.items) ==>
                          r.Reply? && r.status == 200 && GetArticle(s.Snapshot(), Some(caller), slug) == Reply(200, r.body)))
  {
    var k := ArticleIndex(s.articles, slug);
    if k.None? {
      return Failure(Api(NotFound("Article not found")));
    }
    var a := s.articles[k.value];
    if a.authorId != caller {
      return Failure(Api(Forbidden("You are not authorized to update this article")));
    }
    assert a in s.articles;
    var built := SaveEdits(a, title, description, body, slugify, nowMs);
    if built.Refused? {
      return Failure(built.error);
    }
    SavedArticleValid(a, title, description, body, nowMs, s.nextArticleId, UserIds(s.users), TagSet(s.tags));
    r := StoreEdits(s, k.value, built.article, tagList);
  }

  // ---- deleteArticle ------------------------------------------------------

  /** The comments left when the article `id` is destroyed (`ON DELETE CASCADE`). */
  function CommentsKept(comments: seq<Comment>, id: ArticleId): seq<Comment> {
    Filter(comments, (c: Comment) => c.articleId != id)
  }

  /** The favorite rows left when the article `id` is destroyed. */
  function FavoritesKept(favorites: set<(UserId, ArticleId)>, id: ArticleId): set<(UserId, ArticleId)> {
    set p | p in favorites && p.1 != id
  }

  /** The store after `article.destroy()` of the `k`-th article: its row
      (with its tag associations), its comments and its favorites go. */
  function Deleted(db: Db, k: nat): Db
    requires k < |db.articles|
  {
    var id := db.articles[k].id;
    db.(articles := RemoveAt(db.articles, k), comments := CommentsKept(db.comments, id),
        favorites := FavoritesKept(db.favorites, id))
  }

  /** The cascade keeps the store valid. */
  lemma DeletedValid(db: Db, k: nat)
    requires db.Valid() && k < |db.articles|
    ensures Deleted(db, k).Valid()
  {
    var d := Deleted(db, k);
    var id := db.articles[k].id;
    RemoveAtUnique(db.articles, k, ArticleKey);
    RemoveAtUnique(db.articles, k, ArticleSlug);
    FilterUnique(db.comments, (c: Comment) => c.articleId != id, CommentKey);
    forall a | a in d.articles ensures a in db.articles && a.id != id {
      RemoveAtMembers(db.articles, k, a);
      RemoveAtKeyGone(db.articles, k, ArticleKey, a);
    }
    forall c | c in d.comments ensures c.articleId in ArticleIds(d.articles) {
      var b :| b in db.articles && b.id == c.articleId;
      RemoveAtMembers(db.articles, k, b);
    }
    forall p | p in d.favorites ensures p.1 in ArticleIds(d.articles) {
      var b :| b in db.articles && b.id == p.1;
      RemoveAtMembers(db.articles, k, b);
    }
  }

  /** After the delete the slug is unknown and nothing refers to the
      article; every other article, comment and favorite is still there. */
  lemma DeletedSpec(db: Db, k: nat, caller: Option<UserId>)
    requires db.Valid() && k < |db.articles|
    ensures var a := db.articles[k];
            GetArticle(Deleted(db, k), caller, a.slug) == Failure(Api(NotFound("Article not found")))
    ensures var a := db.articles[k];
            && (forall b :: b in db.articles && b.id != a.id ==> b in Deleted(db, k).articles)
            && (forall c :: c in Deleted(db, k).comments <==> c in db.comments && c.articleId != a.id)
            && (forall p :: p in Deleted(db, k).favorites <==> p in db.favorites && p.1 != a.id)
  {
    var a := db.articles[k];
    var d := Deleted(db, k);
    forall b | b in d.articles ensures b.slug != a.slug {
      RemoveAtKeyGone(db.articles, k, ArticleSlug, b);
    }
    forall b | b in db.articles && b.id != a.id ensures b in d.articles {
      RemoveAtMembers(db.articles, k, b);
    }
  }

  /** `deleteArticle` for the authenticated `caller`: 404 for an unknown
      slug, 403 unless the caller wrote the article, otherwise the cascade
      delete. */
  method DeleteArticle(s: Store, caller: UserId, slug: string) returns (r: Response)
    requires s.Valid()
    modifies s
    ensures s.Valid()
    ensures ArticleIndex(old(s.articles), slug).None? ==> r == Failure(Api(NotFound("Article not found"))) && unchanged(s)
    ensures var k := ArticleIndex(old(s.articles), slug);
            k.Some? && old(s.articles)[k.value].authorId != caller ==>
              r == Failure(Api(Forbidden("You are not authorized to delete this article"))) && unchanged(s)
    ensures var k := ArticleIndex(old(s.articles), slug);
            k.Some? && old(s.articles)[k.value].authorId == caller ==>
              s.Snapshot() == Deleted(old(s.Snapshot()), k.value) && r == Reply(200, Notice("Article deleted successfully"))
  {
    var k := ArticleIndex(s.articles, slug);
    if k.None? {
      return Failure(Api(NotFound("Article not found")));
    }
    var a := s.articles[k.value];
    if a.authorId != caller {
      return Failure(Api(Forbidden("You are not authorized to delete this article")));
    }
    DeletedValid(s.Snapshot(), k.value);
    s.articles := RemoveAt(s.articles, k.value);
    s.comments := CommentsKept(s.comments, a.id);
    s.favorites := FavoritesKept(s.favorites, a.id);
    r := Reply(200, Notice("Article deleted successfully"));
  }

  // ---- favoriteArticle / unfavoriteArticle --------------------------------

  /** A favorite row between a user and an article keeps the store valid. */
  lemma FavoriteValid(db: Db, user: UserId, k: nat)
    requires db.Valid() && user in UserIds(db.users) && k < |db.articles|
    ensures db.(favorites := db.favorites + {(user, db.articles[k].id)}).Valid()
    ensures db.(favorites := db.favorites - {(user, db.articles[k].id)}).Valid()
  {
    assert db.articles[k] in db.articles;
  }

  /** The article as `getArticle` shows it to a signed-in caller. */
  lemma CallerArticleView(db: Db, caller: UserId, k: nat)
    requires db.Valid() && caller in UserIds(db.users) && k < |db.articles|
    ensures var a := db.articles[k];
            GetArticle(db, Some(caller), a.slug)
              == Reply(200, ArticleBody(ArticleViewOf(db, a, (caller, a.id) in db.favorites,
                                                      (caller, a.authorId) in db.follows)))
  {
    var a := db.articles[k];
    SlugIdentifies(db, a);
    assert caller != 0 by {
      var u :| u in db.users && u.id == caller;
    }
    assert FavoritedBy(db, Some(caller), a.id) == ((caller, a.id) in db.favorites);
    assert FollowsAs(db, Some(caller), a.authorId) == ((caller, a.authorId) in db.follows);
    assert GetArticle(db, Some(caller), a.slug) == Reply(200, ArticleBody(ViewFor(db, Some(caller), a)));
  }

  /** `favoriteArticle` for the authenticated `caller`: 404 for an unknown
      slug; otherwise the favorite row exists afterwards (it is created only
      when absent) and the reply is the article as `getArticle` now shows it
      to the caller. */
  method FavoriteArticle(s: Store, caller: UserId, slug: string) returns (r: Response)
    requires s.Valid() && caller in UserIds(s.users)
    modifies s
    ensures s.Valid()
    ensures ArticleIndex(old(s.articles), slug).None? ==> r == Failure(Api(NotFound("Article not found"))) && unchanged(s)
    ensures var k := ArticleIndex(old(s.articles), slug);
            k.Some? ==>
              var id := old(s.articles)[k.value].id;
              && s.Snapshot() == old(s.Snapshot()).(favorites := old(s.favorites) + {(caller, id)})
              && FavoritesCount(s.favorites, id)
                   == FavoritesCount(old(s.favorites), id) + (if (caller, id) in old(s.favorites) then 0 else 1)
              && r == GetArticle(s.Snapshot(), Some(caller), slug)
              && r.Reply? && r.body.article.favorited
  {
    var k := ArticleIndex(s.articles, slug);
    if k.None? {
      return Failure(Api(NotFound("Article not found")));
    }
    var a := s.articles[k.value];
    FavoriteValid(s.Snapshot(), caller, k.value);
    FavoritesCountInsert(s.favorites, caller, a.id);
    if (caller, a.id) !in s.favorites {
      s.favorites := s.favorites + {(caller, a.id)};
    }
    assert s.favorites == old(s.favorites) + {(caller, a.id)};
    var favoritesCount := FavoritesCount(s.favorites, a.id);
    var following := (caller, a.authorId) in s.follows;
    CallerArticleView(s.Snapshot(), caller, k.value);
    r := Reply(200, ArticleBody(ArticleView(a.slug, a.title, a.description, a.body, a.tags, a.createdAt, a.updatedAt,
                                            true, favoritesCount, AuthorProfile(s.users, a.authorId, following))));
  }

  /** `unfavoriteArticle` for the authenticated `caller`: 404 for an unknown
      slug; otherwise the favorite row is gone afterwards and the reply is
      the article as `getArticle` now shows it to the caller. */
  method UnfavoriteArticle(s: Store, caller: UserId, slug: string) returns (r: Response)
    requires s.Valid() && caller in UserIds(s.users)
    modifies s
    ensures s.Valid()
    ensures ArticleIndex(old(s.articles), slug).None? ==> r == Failure(Api(NotFound("Article not found"))) && unchanged(s)
    ensures var k := ArticleIndex(old(s.articles), slug);
            k.Some? ==>
              var id := old(s.articles)[k.value].id;
              && s.Snapshot() == old(s.Snapshot()).(favorites := old(s.favorites) - {(caller, id)})
              && FavoritesCount(s.favorites, id) + (if (caller, id) in old(s.favorites) then 1 else 0)
                   == FavoritesCount(old(s.favorites), id)
              && r == GetArticle(s.Snapshot(), Some(caller), slug)
              && r.Reply? && !r.body.article.favorited
  {
    var k := ArticleIndex(s.articles, slug);
    if k.None? {
      return Failure(Api(NotFound("Article not found")));
    }
    var a := s.articles[k.value];
    FavoriteValid(s.Snapshot(), caller, k.value);
    FavoritesCountRemove(s.favorites, caller, a.id);
    s.favorites := s.favorites - {(caller, a.id)};
    var favoritesCount := FavoritesCount(s.favorites, a.id);
    var following := (caller, a.authorId) in s.follows;
    CallerArticleView(s.Snapshot(), caller, k.value);
    r := Reply(200, ArticleBody(ArticleView(a.slug, a.title, a.description, a.body, a.tags, a.createdAt, a.updatedAt,
                                            false, favoritesCount, AuthorProfile(s.users, a.authorId, following))));
  }
}
