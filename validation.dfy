/** Request-body validation: the rule chains of each route and the step that
    groups every failing rule into one 422 error keyed by field name. */
module Validation {
  import opened Common
  import opened Errors

  /** One failed rule: the body path it checked ('user.email') and its message. */
  datatype Issue = Issue(path: string, msg: string)

  // ---- Field names --------------------------------------------------------

  /** `path.split('.').pop() || ''`: the text after the last '.', or the whole
      path when it has no '.'. */
  function LastSegment(path: string): string
  {
    if path == [] then ""
    else if path[|path| - 1] == '.' then ""
    else LastSegment(path[..|path| - 1]) + [path[|path| - 1]]
  }

  /** The field name is the longest suffix of the path without a '.': it has
      no '.', it ends the path, and it is the whole path or follows a '.'. */
  lemma {:induction false} LastSegmentSpec(path: string)
    ensures '.' !in LastSegment(path)
    ensures |LastSegment(path)| <= |path|
    ensures LastSegment(path) == path[|path| - |LastSegment(path)|..]
    ensures |LastSegment(path)| < |path| ==> path[|path| - |LastSegment(path)| - 1] == '.'
  {
    if path != [] && path[|path| - 1] != '.' {
      var init, c := path[..|path| - 1], path[|path| - 1];
      LastSegmentSpec(init);
      var r := LastSegment(init);
      assert path == init + [c];
      assert LastSegment(path) == r + [c];
      assert path[|init| - |r|..] == init[|init| - |r|..] + [c];
      if |r| < |init| {
        assert path[|init| - |r| - 1] == init[|init| - |r| - 1];
      }
    }
  }

  /** The field name of a dotted body path is its last segment:
      `LastSegment("user.email") == "email"`. */
  lemma {:induction false} LastSegmentAfterDot(prefix: string, name: string)
    requires '.' !in name
    ensures LastSegment(prefix + "." + name) == name
  {
    if name != [] {
      var init := name[..|name| - 1];
      assert (prefix + "." + name)[..|prefix + "." + name| - 1] == prefix + "." + init;
      LastSegmentAfterDot(prefix, init);
      assert init + [name[|name| - 1]] == name;
    }
  }

  // ---- Grouping -----------------------------------------------------------

  /** Reference definition of the grouping: each issue appends its message to
      the list of its field. */
  function Grouped(issues: seq<Issue>): FieldLists
  {
    if issues == [] then map[]
    else
      var g := Grouped(issues[..|issues| - 1]);
      var last := issues[|issues| - 1];
      var field := LastSegment(last.path);
      g[field := (if field in g then g[field] else []) + [last.msg]]
  }

  /** The messages of the issues whose field is `field`, in encounter order. */
  function MessagesFor(issues: seq<Issue>, field: string): seq<string>
  {
    if issues == [] then []
    else
      var last := issues[|issues| - 1];
      MessagesFor(issues[..|issues| - 1], field)
        + (if LastSegment(last.path) == field then [last.msg] else [])
  }

  /** The grouping has a key for exactly the fields that failed, and under
      each key every message of that field, in order, duplicates kept. */
  lemma {:induction false} GroupedSpec(issues: seq<Issue>, field: string)
    ensures field in Grouped(issues) <==> MessagesFor(issues, field) != []
    ensures field in Grouped(issues) ==> Grouped(issues)[field] == MessagesFor(issues, field)
  {
    if issues != [] {
      GroupedSpec(issues[..|issues| - 1], field);
    }
  }

  /** A field has messages exactly when some issue's path ends in it. */
  lemma {:induction false} MessagesForNonEmpty(issues: seq<Issue>, field: string)
    ensures MessagesFor(issues, field) != [] <==>
            exists i :: 0 <= i < |issues| && LastSegment(issues[i].path) == field
  {
    if issues != [] {
      var init := issues[..|issues| - 1];
      MessagesForNonEmpty(init, field);
      if exists i :: 0 <= i < |issues| && LastSegment(issues[i].path) == field {
        var i :| 0 <= i < |issues| && LastSegment(issues[i].path) == field;
        if i < |init| { assert init[i] == issues[i]; }
      }
      if exists i :: 0 <= i < |init| && LastSegment(init[i].path) == field {
        var i :| 0 <= i < |init| && LastSegment(init[i].path) == field;
        assert issues[i] == init[i];
      }
    }
  }

  /** Encounter order: the messages of a concatenation are the messages of
      the first part followed by those of the second. */
  lemma {:induction false} MessagesForAppend(a: seq<Issue>, b: seq<Issue>, field: string)
    ensures MessagesFor(a + b, field) == MessagesFor(a, field) + MessagesFor(b, field)
  {
    if b == [] {
      assert a + b == a;
    } else {
      var init := b[..|b| - 1];
      assert (a + b)[..|a + b| - 1] == a + init;
      MessagesForAppend(a, init, field);
    }
  }

  /** The `forEach` loop of `handleValidationErrors` building `formattedErrors`. */
  method GroupIssues(issues: seq<Issue>) returns (formatted: FieldLists)
    ensures formatted == Grouped(issues)
  {
    formatted := map[];
    var k := 0;
    while k < |issues|
      invariant 0 <= k <= |issues|
      invariant formatted == Grouped(issues[..k])
    {
      assert issues[..k + 1][..k] == issues[..k];
      var field := LastSegment(issues[k].path);
      if field !in formatted {
        formatted := formatted[field := []];
      }
      formatted := formatted[field := formatted[field] + [issues[k].msg]];
      k := k + 1;
    }
    assert issues[..|issues|] == issues;
  }

  /** `handleValidationErrors`: no issue lets the request through (`None`);
      otherwise one 422 'Validation error' carries every failing field. */
  method HandleValidationErrors(issues: seq<Issue>) returns (err: Option<ApiError>)
    ensures err.None? <==> issues == []
    ensures err.Some? ==> err.value == ValidationError(WithFieldErrors(Grouped(issues)))
  {
    if issues == [] {
      return None;
    }
    var formatted := GroupIssues(issues);
    err := Some(ValidationError(WithFieldErrors(formatted)));
  }

  // ---- Rule chains --------------------------------------------------------
  // A chain runs every rule of a field (it does not stop at the first
  // failure); `optional()` skips a field only when it is missing.

  function Rule(ok: bool, path: string, msg: string): (r: seq<Issue>)
    ensures ok ==> r == []
    ensures !ok ==> r == [Issue(path, msg)]
  {
    if ok then [] else [Issue(path, msg)]
  }

  /** `validateUser` (registration). */
  function ValidateUser(username: Field, email: Field, password: Field, isEmail: string -> bool): (r: seq<Issue>)
    ensures r == [] <==>
              3 <= |FieldString(username)| <= 20 &&
              FieldString(email) != "" && isEmail(FieldString(email)) &&
              6 <= |FieldString(password)|
    ensures forall x :: x in r ==> x.path in {"user.username", "user.email", "user.password"}
  {
    var u, e, p := FieldString(username), FieldString(email), FieldString(password);
    Rule(u != "", "user.username", "Username cannot be empty")
    + Rule(3 <= |u| <= 20, "user.username", "Username must be between 3 and 20 characters")
    + Rule(e != "", "user.email", "Email cannot be empty")
    + Rule(isEmail(e), "user.email", "Invalid email format")
    + Rule(p != "", "user.password", "Password cannot be empty")
    + Rule(6 <= |p|, "user.password", "Password must be at least 6 characters long")
  }

  /** `validateLogin`. */
  function ValidateLogin(email: Field, password: Field, isEmail: string -> bool): (r: seq<Issue>)
    ensures r == [] <==>
              FieldString(email) != "" && isEmail(FieldString(email)) && FieldString(password) != ""
    ensures forall x :: x in r ==> x.path in {"user.email", "user.password"}
  {
    var e, p := FieldString(email), FieldString(password);
    Rule(e != "", "user.email", "Email cannot be empty")
    + Rule(isEmail(e), "user.email", "Invalid email format")
    + Rule(p != "", "user.password", "Password cannot be empty")
  }

  /** `validateArticle` (creation). */
  function ValidateArticle(title: Field, description: Field, body: Field, tagList: ListField): (r: seq<Issue>)
    ensures r == [] <==>
              1 <= |FieldString(title)| <= 255 &&
              1 <= |FieldString(description)| <= 255 &&
              FieldString(body) != "" &&
              !tagList.NotAList?
    ensures forall x :: x in r ==>
              x.path in {"article.title", "article.description", "article.body", "article.tagList"}
  {
    var t, d, b := FieldString(title), FieldString(description), FieldString(body);
    Rule(t != "", "article.title", "Title cannot be empty")
    + Rule(1 <= |t| <= 255, "article.title", "Title must be between 1 and 255 characters")
    + Rule(d != "", "article.description", "Description cannot be empty")
    + Rule(1 <= |d| <= 255, "article.description", "Description must be between 1 and 255 characters")
    + Rule(b != "", "article.body", "Body cannot be empty")
    + Rule(!tagList.NotAList?, "article.tagList", "TagList must be an array")
  }

  /** `validateComment`. */
  function ValidateComment(body: Field): (r: seq<Issue>)
    ensures r == [] <==> 1 <= |FieldString(body)| <= 1000
    ensures forall x :: x in r ==> x.path == "comment.body"
  {
    var b := FieldString(body);
    Rule(b != "", "comment.body", "Comment body cannot be empty")
    + Rule(1 <= |b| <= 1000, "comment.body", "Comment must be between 1 and 1000 characters")
  }

  /** `validateUserUpdate`: only the fields that are present are checked. */
  function ValidateUserUpdate(email: Field, username: Field, password: Field, bio: Field, image: Field,
                              isEmail: string -> bool, isUrl: string -> bool): (r: seq<Issue>)
    ensures r == [] <==>
              (email.Absent? || isEmail(FieldString(email))) &&
              (username.Absent? || 3 <= |FieldString(username)| <= 20) &&
              (password.Absent? || 6 <= |FieldString(password)|) &&
              (image.Absent? || isUrl(FieldString(image)))
    ensures forall x :: x in r ==>
              x.path in {"user.email", "user.username", "user.password", "user.image"}
  {
    Rule(email.Absent? || isEmail(FieldString(email)), "user.email", "Invalid email format")
    + Rule(username.Absent? || 3 <= |FieldString(username)| <= 20,
           "user.username", "Username must be between 3 and 20 characters")
    + Rule(password.Absent? || 6 <= |FieldString(password)|,
           "user.password", "Password must be at least 6 characters long")
    + Rule(image.Absent? || isUrl(FieldString(image)), "user.image", "Image must be a valid URL")
  }

  /** Issues raised on `user.*` paths group under the bare names. */
  lemma UserPathFields(issues: seq<Issue>)
    requires forall x :: x in issues ==> x.path in {"user.username", "user.email", "user.password"}
    ensures Grouped(issues).Keys <= {"username", "email", "password"}
  {
    forall f | f in Grouped(issues) ensures f in {"username", "email", "password"} {
      GroupedSpec(issues, f);
      MessagesForNonEmpty(issues, f);
      var i :| 0 <= i < |issues| && LastSegment(issues[i].path) == f;
      UserPathField(issues[i].path);
    }
  }

  lemma UserPathField(path: string)
    requires path in {"user.username", "user.email", "user.password"}
    ensures LastSegment(path) in {"username", "email", "password"}
  {
    if path == "user.username" {
      LastSegmentAfterDot("user", "username");
      assert path == "user" + "." + "username";
    } else if path == "user.email" {
      LastSegmentAfterDot("user", "email");
      assert path == "user" + "." + "email";
    } else {
      LastSegmentAfterDot("user", "password");
      assert path == "user" + "." + "password";
    }
  }

  /** A failed registration names only the fields `username`, `email` and
      `password` in its 422 body. */
  lemma RegistrationErrorFields(username: Field, email: Field, password: Field, isEmail: string -> bool)
    ensures Grouped(ValidateUser(username, email, password, isEmail)).Keys <= {"username", "email", "password"}
  {
    UserPathFields(ValidateUser(username, email, password, isEmail));
  }
}
