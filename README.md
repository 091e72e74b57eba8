# Conduit backend: a verified model

This project models the server side of Conduit, the "RealWorld" blogging
API, as written in TypeScript on Express and Sequelize. It covers:

- the three middlewares:
  - the two authentication guards;
  - request validation;
  - the error handler that turns every failure into a JSON reply.
- the six Sequelize models: `User`, `Article`, `Comment`, `Tag`, and the
  two join tables for follows and favorites. Their column validators and
  their `beforeSave`/`beforeValidate` hooks are included.
- the four controllers for users, profiles, articles and comments.

The database is one `Database.Store` object. Its fields are the tables:

- users, articles and comments, each a sequence of rows;
- the tag table, a sequence of names;
- the follow and favorite relations, sets of id pairs;
- the three auto-increment counters.

A controller that writes takes the store and states its whole new state
through `Snapshot()`. A controller that only reads is a function of that
snapshot. `Schema.Db.Valid` is the store invariant. It says that:

- primary keys and the unique columns (username, email, slug, tag name)
  are unique;
- foreign keys point at existing rows;
- the not-null and `notEmpty` column checks hold for every stored row:
  username and e-mail, article slug, title, description and body, comment
  body, and tag name;
- the counters are above every id in use.

Every writing controller keeps this invariant. Two kinds of user column
checks run when a row is saved but are not part of the invariant:

- `isEmail` on the e-mail, because `isEmail` is a parameter of the model;
- `notEmpty` and the 6-to-100 length rule on the password, because they
  judge the value before `beforeSave` replaces it with its hash.

Code outside the repository is a parameter of the model:

- the `slugify` package;
- `bcrypt.hash` and `bcrypt.compare`;
- `jwt.sign` and `jwt.verify` (RFC 7519);
- `validator`'s `isEmail`;
- the clock;
- the environment variables `JWT_SECRET` and `JWT_EXPIRES_IN`.

HTTP is reduced to its parts:

- a request's path, query and body fields become arguments;
- a reply is a `Views.Response`: a status with a body, or the error the
  error handler receives.

JavaScript truthiness is written out where the code relies on it. Absent,
`null` and empty-string fields are told apart by `Common.Field`.

The model follows the code where a test expects otherwise.
`src/__tests__/user.test.ts:36-43` expects registration to report a taken
username first. `register` checks the e-mail first
(`src/controllers/user.controller.ts:14-22`), and so does
`UserController.Register`.

## Model

| member | source | states |
|---|---|---|
| Errors.FactoryReplies | src/middleware/errorHandler.ts:15-52 | each factory used with its defaults reaches the client with its own status and `{errors: {message}}` holding the default message ('Unauthorized', 'Forbidden', 'Not found', 'Validation error', 'Internal server error'); a validation error with field lists sends those lists |
| Errors.FieldErrorReply | src/controllers/user.controller.ts:14-17 | a controller's one-field validation error reaches the client as 422 with exactly that field and that one message |
| Errors.LastWinsKeys | src/middleware/errorHandler.ts:59-63 | a path is a key of the collected errors iff some Sequelize item has that path |
| Errors.LastWinsValue | src/middleware/errorHandler.ts:59-63 | for each path the message kept is the one of the last item with that path |
| Errors.CollectPathMessages | src/middleware/errorHandler.ts:59-63 | the loop builds the path-to-message map in which later items overwrite earlier ones |
| Errors.ErrorHandler | src/middleware/errorHandler.ts:40-76 | an ApiError is replied with its own status and body; a Sequelize validation or unique-constraint error gives 422 with one message per path; any other error gives 500 'Internal server error' |
| Validation.LastSegmentSpec | src/middleware/validation.ts:15-16 | the field name is the text after the last '.', and contains no '.' |
| Validation.LastSegmentAfterDot | src/middleware/validation.ts:15-16 | 'user.email' is reported under 'email' |
| Validation.GroupedSpec | src/middleware/validation.ts:13-22 | a field is a key of the grouped errors iff it has a message; its list holds its messages in order |
| Validation.MessagesForNonEmpty | src/middleware/validation.ts:18-21 | a field has messages iff some issue's path ends in it |
| Validation.MessagesForAppend | src/middleware/validation.ts:18-21 | grouping keeps the order of the issues |
| Validation.GroupIssues | src/middleware/validation.ts:13-22 | the loop groups the issues by field name, keeping each field's messages in order |
| Validation.HandleValidationErrors | src/middleware/validation.ts:6-28 | the request proceeds iff there are no issues; otherwise a 422 'Validation error' carrying the grouped messages |
| Validation.ValidateUser | src/middleware/validation.ts:31-45 | no issue iff the username has 3 to 20 characters, the email is a non-empty e-mail, and the password has at least 6 characters; every issue is under user.username, user.email or user.password |
| Validation.ValidateLogin | src/middleware/validation.ts:48-57 | no issue iff the email is an e-mail and the password is non-empty |
| Validation.ValidateArticle | src/middleware/validation.ts:60-77 | no issue iff title and description have 1 to 255 characters, the body is non-empty, and tagList, when present, is an array |
| Validation.ValidateComment | src/middleware/validation.ts:80-86 | no issue iff the body has 1 to 1000 characters |
| Validation.ValidateUserUpdate | src/middleware/validation.ts:89-110 | no issue iff each field that is present passes its check: an e-mail, a username of 3 to 20 characters, a password of at least 6, a URL as image |
| Validation.UserPathField | src/middleware/validation.ts:15-16 | each registration rule's path is reported under username, email or password |
| Validation.RegistrationErrorFields | src/middleware/validation.ts:31-45 | a refused registration names only the fields username, email and password |
| Common.TrimSpec | src/controllers/article.controller.ts:330 | `trim()` leaves nothing iff the name is blank, and a trimmed name starts and ends with a non-space |
| Common.TrimStartSpec | src/controllers/article.controller.ts:330 | trimming the start keeps blankness and leaves no leading space |
| Common.TrimEndSpec | src/controllers/article.controller.ts:330 | trimming the end keeps a prefix, keeps blankness and leaves no trailing space |
| Common.AsciiLower | src/controllers/article.controller.ts:330 | `toLowerCase()` maps A-Z to a-z and keeps every other character and the length |
| Common.AsciiLowerBlank | src/controllers/article.controller.ts:330 | lowercasing neither makes nor unmakes a blank name |
| Common.Decimal | src/models/Article.ts:105 | `toString()` of a time value is a non-empty run of decimal digits |
| Schema.UserById | src/middleware/auth.ts:33-39 | the row with that primary key, or None when no row has it |
| Schema.UserByUsername | src/controllers/profile.controller.ts:14-18 | the row with that username, or None when none has it |
| Schema.UserByEmail | src/controllers/user.controller.ts:41-45 | the row with that e-mail, or None when none has it |
| Schema.ArticleIndex | src/controllers/article.controller.ts:233-252 | the position of the article with that slug, or None when none has it |
| Schema.CommentIndex | src/controllers/comment.controller.ts:137-146 | the position of the comment with that id on that article, or None |
| Schema.UsernameIdentifies | src/models/User.ts:37-46 | because usernames are unique, looking up a user's username finds that user |
| Database.Store.constructor | src/models/index.ts:1-69 | an empty database whose counters start at 1 is valid |
| Auth.BearerToken | src/middleware/auth.ts:25-26 | a token is read iff the header starts with 'Token ', and it is the rest of the header |
| Auth.BearerTokenRoundTrip | src/middleware/auth.ts:60-64 | the header 'Token ' + t is read back as t |
| Auth.Request.constructor | src/middleware/auth.ts:21-23 | a request starts with no user attached |
| Auth.Request.OptionalAuth | src/middleware/auth.ts:21-50 | the user is attached iff the token verifies and names an existing user; in every other case the request is left as it was and never refused |
| Auth.Request.RequireAuth | src/middleware/auth.ts:56-92 | a missing header, a token error or an unknown user give 401 with the source's messages; other verification errors pass through; on success the attached user is a row of the table |
| UserModel.DigitPrefixLen | src/models/User.ts:129 | `parseInt` reads the longest prefix of digits |
| UserModel.ParseIntDecimal | src/models/User.ts:129 | `parseInt` reads back the decimal text of any number |
| UserModel.ParseIntDecimalPrefix | src/models/User.ts:129 | `parseInt` stops at the first non-digit |
| UserModel.MagnitudeDecimalPrefix | src/models/User.ts:129 | after the sign, the digits of a decimal numeral followed by any text read back as that number |
| UserModel.ParseIntNoDigits | src/models/User.ts:129-130 | text that does not start with a digit gives NaN |
| UserModel.ExpiresInDefault | src/models/User.ts:125-133 | with JWT_EXPIRES_IN unset or empty the expiry is 86400 seconds |
| UserModel.ExpiresInSeconds | src/models/User.ts:128-133 | a numeric JWT_EXPIRES_IN is used as a number of seconds |
| UserModel.ExpiresInDropsUnit | src/models/User.ts:128-133 | a unit such as '7d' is dropped, so the value is read as 7 seconds |
| UserModel.ExpiresInUnreadable | src/models/User.ts:128-133 | a JWT_EXPIRES_IN with no leading digits falls back to 86400 |
| UserModel.GenerateJwt | src/models/User.ts:115-136 | the token signs exactly id, username and email with the secret and the expiry above |
| ProfileController.ProfileJsonIsAnonymousProfile | src/models/User.ts:138-147 | `toProfileJSON` ignores the caller id it is given and renders exactly the profile an anonymous caller gets from `getProfile` |
| UserModel.ToAuthJson | src/models/User.ts:149-159 | email, username, a fresh token, and bio and image defaulted to '' |
| UserModel.UserIssues | src/models/User.ts:37-72 | no issue iff every validated column passes: a non-blank username, an e-mail that `isEmail` accepts ('Invalid email format' is reported first) and that is non-blank, a non-blank password of 6 to 100 characters; a loaded row checks only changed columns |
| UserModel.UserRecord.Load | src/models/User.ts:97-103 | an instance loaded from a row holds that row |
| UserModel.UserRecord.Build | src/models/User.ts:97-103 | a new instance holds the given columns with no bio or image |
| UserModel.UserRecord.BeforeSave | src/models/User.ts:97-103 | the password is hashed iff it changed (always for a new row); nothing else changes |
| ArticleModel.Last6 | src/models/Article.ts:105 | `slice(-6)` keeps the last six characters, or all of a shorter string |
| ArticleModel.NewSlugShape | src/models/Article.ts:98-106 | a new slug is slugify(title), a '-', then one to six decimal digits, so it is never empty |
| ArticleModel.NewSlugRepeats | src/models/Article.ts:104-106 | the suffix repeats every 1,000,000 ms, so one title posted 1000 s apart gets the same slug twice |
| ArticleModel.ArticleIssues | src/models/Article.ts:39-70 | no issue iff the slug is set and title, description and body pass notEmpty; a loaded row checks only changed columns |
| ArticleModel.ArticleRecord.Build | src/models/Article.ts:95-109 | a new instance has no slug |
| ArticleModel.ArticleRecord.Load | src/models/Article.ts:95-109 | a loaded instance keeps its row's slug |
| ArticleModel.ArticleRecord.BeforeValidate | src/models/Article.ts:95-109 | the slug is set only when the title is non-empty and there is no slug yet, so a retitled article keeps its slug |
| Ordering.Insert | src/controllers/article.controller.ts:62 | inserting into a newest-first list keeps it newest first and adds exactly that row |
| Ordering.InsertBehindHead | src/controllers/article.controller.ts:62 | a row older than the head goes behind it, and the list stays newest first with exactly one row more |
| Ordering.SortNewestFirst | src/controllers/article.controller.ts:62 | `ORDER BY created_at DESC` gives the same rows, newest first |
| Ordering.Page | src/controllers/article.controller.ts:63-64 | LIMIT/OFFSET is the run of at most `limit` rows starting at `offset` |
| Ordering.PageNewestFirst | src/controllers/article.controller.ts:62-64 | a page of a sorted list is sorted |
| Views.FavoritesCountInsert | src/controllers/article.controller.ts:542-561 | adding a favorite row raises that article's count by one, unless the row already exists |
| Views.FavoritesCountRemove | src/controllers/article.controller.ts:626-637 | removing a favorite row lowers that article's count by one, unless the row is absent |
| Views.AuthorProfile | src/controllers/article.controller.ts:111-116 | the author's username, with bio and image defaulted to '', and the given following flag |
| ProfileController.GetProfile | src/controllers/profile.controller.ts:9-44 | 404 'User not found' iff no user has that username; otherwise that user's profile |
| ProfileController.GetProfileOf | src/controllers/profile.controller.ts:19-31 | an anonymous caller never follows; a signed-in caller follows iff the follow row exists |
| ProfileController.KnownUserSignedIn | src/controllers/profile.controller.ts:22 | every user id in the store passes the `if (currentUserId)` test |
| ProfileController.FollowUser | src/controllers/profile.controller.ts:49-93 | 404 for an unknown user; 422 'You can't follow yourself'; otherwise the follow row exists afterwards and the reply says following; following twice writes nothing |
| ProfileController.FollowValid | src/controllers/profile.controller.ts:60-79 | a follow row between two distinct users may be added, and any follow row removed, without breaking the store's invariants |
| ProfileController.WriteFollows | src/controllers/profile.controller.ts:75-78 | the follow table is replaced and every other table kept, and the store stays valid |
| ProfileController.UnfollowUser | src/controllers/profile.controller.ts:98-129 | 404 for an unknown user; otherwise the follow row is gone and the reply says not following |
| ProfileController.FollowShowsInProfile | src/controllers/profile.controller.ts:49-129 | after a follow the caller sees the profile as followed; after an unfollow, as not followed |
| UserController.Register | src/controllers/user.controller.ts:9-32 | a taken e-mail, then a taken username, give 422 and write nothing; invalid columns write nothing; otherwise one row with a hashed password is added and 201 returns its token |
| UserController.InsertUserValid | src/controllers/user.controller.ts:25 | a new row with the next id and a free, non-blank username and e-mail keeps the store valid |
| UserController.Login | src/controllers/user.controller.ts:37-58 | an unknown e-mail and a wrong password both give the same 401; a success is the matching user's authentication body |
| UserController.LoginFindsOwner | src/controllers/user.controller.ts:41-45 | because e-mails are unique, logging in with a user's e-mail finds that user |
| UserController.GetCurrentUser | src/controllers/user.controller.ts:63-71 | the reply is the attached user's authentication body |
| UserController.UpdateConflictSpec | src/controllers/user.controller.ts:82-94 | refused iff another user holds the requested e-mail (checked first) or username; re-sending one's own values is never refused |
| UserController.OthersDiffer | src/models/User.ts:36-51 | under the unique indexes no other user shares a user's e-mail or username |
| UserController.UpdatedRow | src/controllers/user.controller.ts:97-101 | username, e-mail and password change only to truthy values; bio and image take any value sent, including '' and null |
| UserController.UpdatedRowFalsy | src/controllers/user.controller.ts:97-101 | sending no bio or image keeps them; sending null or '' stores null or '' |
| UserController.ReplaceKeepsUserIds | src/controllers/user.controller.ts:104 | rewriting a row in place keeps the set of user ids |
| UserController.AssignFields | src/controllers/user.controller.ts:97-101 | the loaded instance ends up holding the updated row |
| UserController.UpdateUser | src/controllers/user.controller.ts:76-111 | a conflict or an invalid changed column writes nothing; otherwise the user's row is replaced in place, the password re-hashed only when it changed, and 200 returns the new token |
| UserController.SavedRowKeepsValid | src/controllers/user.controller.ts:104 | saving an updated row that passed validation and the uniqueness checks keeps the store valid |
| UserController.WriteUser | src/controllers/user.controller.ts:104 | the user's row is rewritten in place, every other table is kept, and the store stays valid |
| ArticleQueries.GetArticles | src/controllers/article.controller.ts:10-128 | 200 with at most `limit` articles |
| ArticleQueries.ListedSpec | src/controllers/article.controller.ts:31-66 | the listed rows are articles that pass every filter, newest first; the count covers every matching article |
| ArticleQueries.NoFiltersCountsAll | src/controllers/article.controller.ts:59-66 | with no filter every article is counted |
| ArticleQueries.CountIgnoresPaging | src/controllers/article.controller.ts:59-66 | `articlesCount` depends neither on limit and offset nor on the caller |
| ArticleQueries.ListedIsWindow | src/controllers/article.controller.ts:62-64 | the n-th listed article is the (offset + n)-th newest matching one |
| ArticleQueries.AnonymousListing | src/controllers/article.controller.ts:72-98 | without a caller every listed article has favorited and author.following false |
| ArticleQueries.GetFeed | src/controllers/article.controller.ts:133-222 | a caller who follows nobody gets an empty feed with count 0; otherwise the query over followed authors |
| ArticleQueries.FeedShortcutAgrees | src/controllers/article.controller.ts:144-149 | the shortcut for a caller who follows nobody gives what the full query would |
| ArticleQueries.FeedSpec | src/controllers/article.controller.ts:155-176 | the feed holds only articles by followed authors, newest first, and counts every such article |
| ArticleQueries.FeedRowFollowed | src/controllers/article.controller.ts:155-158 | a row on a feed page is an article by an author the caller follows |
| ArticleQueries.FeedAuthorsFollowed | src/controllers/article.controller.ts:209 | every feed article reports author.following true |
| ArticleQueries.GetArticle | src/controllers/article.controller.ts:227-306 | 404 'Article not found' iff no article has that slug; otherwise that article's view |
| ArticleQueries.GetArticleOf | src/controllers/article.controller.ts:254-281 | an article's view shows favorited and following false for an anonymous caller, and the relations otherwise |
| ArticleQueries.SlugIdentifies | src/models/Article.ts:39-43 | because slugs are unique, looking up an article's slug finds that article |
| ArticleController.NormaliseTagBlank | src/models/Tag.ts:26-35 | a normalised tag name fails notEmpty iff the name was blank |
| ArticleController.GetOrCreateValid | src/controllers/article.controller.ts:329-331 | findOrCreate keeps the tag table unique and only appends to it |
| ArticleController.GetOrCreateAllValid | src/controllers/article.controller.ts:327-334 | creating a list of tags keeps the table unique and only appends to it |
| ArticleController.GetOrCreateNames | src/controllers/article.controller.ts:329-331 | findOrCreate adds the name iff it passes notEmpty |
| ArticleController.GetOrCreateAllNames | src/controllers/article.controller.ts:327-334 | the table gains exactly the non-blank names of the list |
| ArticleController.FindOrCreateTag | src/controllers/article.controller.ts:329-331 | the tag row exists afterwards, or the name is refused with 'Tag name cannot be empty' and nothing is written |
| ArticleController.TagsFor | src/controllers/article.controller.ts:325-334 | the tags are the trimmed, lowercased names; the list fails iff one name is blank |
| ArticleController.NormalisedSpec | src/controllers/article.controller.ts:328-330 | one normalised name per item, in order |
| ArticleController.NormalisedNotBlank | src/controllers/article.controller.ts:328-330 | with no blank item every normalised name passes notEmpty |
| ArticleController.NormalisedMembers | src/controllers/article.controller.ts:328-330 | a name is attached iff it is the normalised form of some item |
| ArticleController.TagTableGrows | src/controllers/article.controller.ts:327-334 | no tag is ever deleted |
| ArticleController.TagTableCovers | src/controllers/article.controller.ts:327-334 | every name asked for is in the table afterwards |
| ArticleController.InsertArticleValid | src/controllers/article.controller.ts:317-322 | inserting a validated article with a fresh id and slug keeps the store valid |
| ArticleController.ReplaceArticleValid | src/controllers/article.controller.ts:409 | rewriting an article whose slug stays unique keeps the store valid |
| ArticleController.GrowTagsValid | src/controllers/article.controller.ts:327-334 | a grown tag table keeps the store valid |
| ArticleController.CreatedArticleView | src/controllers/article.controller.ts:358-376 | the reply to the author shows the new article with 0 favorites, favorited false and following false |
| ArticleController.BuildArticle | src/controllers/article.controller.ts:317-322 | an invalid column, or a taken slug, is refused; otherwise the row has the hook's slug, the caller as author, no tags and both timestamps equal to now |
| ArticleController.WithTagsSpec | src/controllers/article.controller.ts:336-337 | `setTags` attaches exactly the normalised names, adds them to the table, and touches nothing else |
| ArticleController.TagListNames | src/controllers/article.controller.ts:327-334 | the attached names are the normalised tag names, and the tag table gains exactly those |
| ArticleController.InsertArticle | src/controllers/article.controller.ts:317-322 | the article row is appended with the next id and the store stays valid |
| ArticleController.TagsAttachedValid | src/controllers/article.controller.ts:327-337 | creating and attaching the tags keeps the store valid |
| ArticleController.SetTags | src/controllers/article.controller.ts:325-338 | the tags are created and attached; a blank name is refused after the other names are created |
| ArticleController.StoreArticle | src/controllers/article.controller.ts:317-376 | an empty tag list writes only the row; otherwise the tags too; the 201 reply is the stored article |
| ArticleController.CreateArticle | src/controllers/article.controller.ts:311-380 | invalid columns or a taken slug write nothing; otherwise the row, then the tags; a blank tag leaves the row written and fails; the reply is what `getArticle` would show the author |
| ArticleController.EditedArticle | src/controllers/article.controller.ts:404-406 | title, description and body change only to truthy values; identity, author, tags and timestamps are kept |
| ArticleController.SaveEdits | src/controllers/article.controller.ts:404-409 | a changed column is validated; the slug is kept; updated_at moves only when something changed |
| ArticleController.SavedArticleValid | src/controllers/article.controller.ts:404-409 | a save that passed validation leaves a valid row with the same id, slug, author, tags and created_at |
| ArticleController.ReplaceArticle | src/controllers/article.controller.ts:409 | the article row is rewritten in place and the store stays valid |
| ArticleController.OwnArticleView | src/controllers/article.controller.ts:451-476 | the update reply is what `getArticle` shows the author |
| ArticleController.StoreEdits | src/controllers/article.controller.ts:409-425 | the row is saved; an array tagList then replaces the tags, an empty array clearing them, and any other tagList keeps them |
| ArticleController.UpdateArticle | src/controllers/article.controller.ts:385-481 | 404 for an unknown slug; 403 for another user's article; invalid changed columns write nothing; otherwise the saved row and tags, and the reply `getArticle` would give |
| ArticleController.DeletedValid | src/controllers/article.controller.ts:504 | deleting an article with its comments, favorites and tag links keeps the store valid |
| ArticleController.DeletedSpec | src/controllers/article.controller.ts:504 | afterwards the slug is not found; other articles are kept; the article's comments and favorites are gone and all others stay |
| ArticleController.DeleteArticle | src/controllers/article.controller.ts:486-510 | 404 for an unknown slug; 403 for another user's article; otherwise the article is deleted with everything that hangs on it |
| ArticleController.FavoriteValid | src/models/ArticleFavorite.ts:51-56 | adding or removing a favorite pair keeps the store valid |
| ArticleController.CallerArticleView | src/controllers/article.controller.ts:558-590 | the reply for a signed-in caller is the article's `getArticle` view |
| ArticleController.FavoriteArticle | src/controllers/article.controller.ts:515-594 | 404 for an unknown slug; otherwise the pair is in the favorites, the count rises by one unless already favorited, and the reply shows favorited |
| ArticleController.UnfavoriteArticle | src/controllers/article.controller.ts:599-670 | 404 for an unknown slug; otherwise the pair is gone, the count drops by one if it was there, and the reply shows not favorited |
| CommentController.GetComments | src/controllers/comment.controller.ts:9-67 | 404 'Article not found' iff no article has the slug; otherwise 200 with a list of comments |
| CommentController.CommentsOfSpec | src/controllers/comment.controller.ts:21-31 | the listed comments are exactly that article's comments, each once, newest first |
| CommentController.GetCommentsOf | src/controllers/comment.controller.ts:21-63 | the reply annotates each of the article's comments in that order |
| CommentController.CommentFollowing | src/controllers/comment.controller.ts:37-46 | a comment author is followed iff the caller is signed in and the follow row exists |
| CommentController.InsertCommentValid | src/models/Comment.ts:31-38 | a comment with a non-blank body on an existing article keeps the store valid |
| CommentController.OnArticleAppend | src/controllers/comment.controller.ts:21-22 | a new comment appears last among its article's comments |
| CommentController.AddComment | src/controllers/comment.controller.ts:72-120 | 404 for an unknown slug; a blank body writes nothing; otherwise exactly one comment by the caller and a 201 with following false |
| CommentController.AddedCommentListed | src/controllers/comment.controller.ts:21-31 | a new comment is listed with its article, whose list grows by one; other lists are unchanged |
| CommentController.RemoveCommentValid | src/controllers/comment.controller.ts:154 | deleting one comment keeps the store valid and removes only that comment |
| CommentController.DeleteComment | src/controllers/comment.controller.ts:125-160 | 404 for an unknown slug; 404 'Comment not found' for a comment not on that article; 403 for another user's comment; otherwise exactly that comment is removed |

## Left out

- Column widths are not modelled: `STRING(50)` and `STRING(255)` limits, and the database error an over-long value raises.
- Query parameters are taken as already-read natural numbers. The model does not cover `Number(limit)` giving NaN or a negative value.
- `toLowerCase()` and `trim()` are modelled for ASCII letters and the common JavaScript white space. Unicode case mapping is not modelled.
- Lengths are counted in characters of the model's strings. The `isLength` check of express-validator, which Sequelize's `len` also uses, does not count the variation selectors U+FE0E and U+FE0F; the model counts them.
- Rows created in the same millisecond are ordered by id, newest first. The database leaves their order unspecified.
- Hashing, token signing and verification, e-mail and URL syntax, and slugify are parameters. Salt generation is not modelled.
- `Promise.all` runs its steps in list order. Interleaving between concurrent requests is not modelled, and neither are races on the unique indexes.
- Request fields that are not strings (a number title, a tag that is not a string) are not modelled. Neither is a request with no `article` or `user` object.
- In the tag-filtered listing, `tagList` shows all the article's tags, not only the filter tag that Sequelize's include merging would return.
- One clock reading is used for both the slug suffix and the row's timestamps.
- A user row's `updated_at` column is not modelled.
- A comment id that is not a number is not modelled.
- The tag controller (`getTags`), the routes, the Express application and the server start-up are not part of this model.
- The ON DELETE CASCADE on favorites and tag links is the default Sequelize gives `belongsToMany` join tables (src/models/Article.ts:167-180). The code names it explicitly only for comments (src/models/Comment.ts:89-93).
- ArticleController.SaveEdits: requires the loaded article to have a non-empty slug. This is part of the store invariant, so every stored row meets it.
- ArticleQueries.GetArticles: states the page bound and leaves the contents to ListedSpec and ListedIsWindow.
- ArticleController.WithTags: a tag list whose items normalise to the same name gives that name one link. The source hands `setTags` the same tag twice; Sequelize's `belongsToMany` set then most likely inserts the join row twice and fails on the (article_id, tag_id) key. That library behaviour is not modelled.
- ArticleController.SetTags: for repeated normalised tag names not yet linked, promises success with one link each, where the source most likely fails with a unique-constraint error.
- ArticleController.StoreArticle: for repeated normalised tag names, promises 201, where the source most likely replies 422 after the article row is written.
- ArticleController.CreateArticle: for repeated normalised tag names (such as 'Dragons' and 'dragons'), promises 201 with one tag, where the source most likely replies 422 after the article row is written.
- ArticleController.StoreEdits: for repeated normalised tag names not yet linked, promises 200, where the source most likely replies 422 after the edits are saved.
- ArticleController.UpdateArticle: for repeated normalised tag names not yet linked, promises 200 with one link, where the source most likely replies 422 after the edits are saved.
- The `console.error` calls of the error handler (src/middleware/errorHandler.ts:46) and of the authentication guard (src/middleware/auth.ts:42) write to the server log only and are not modelled.
