/** The `Article` model: the `beforeValidate` hook that gives a new article
    its slug, and the column validators checked on save. `slugify` is a
    parameter of the model; the clock reading is an input. */
module ArticleModel {
  import opened Common
  import opened Errors
  import opened Schema

  /** `slugify(title, {lower: true, strict: true})`. */
  type Slugifier = string -> string

  // ---- The slug suffix ----------------------------------------------------

  /** `s.slice(-6)`: the last six characters, or all of a shorter string. */
  function Last6(s: string): (r: string)
    ensures |r| == if |s| < 6 then |s| else 6
    ensures r == s[|s| - |r|..]
  {
    if |s| <= 6 then s else s[|s| - 6..]
  }

  /** The slug the hook gives a new article whose title is `title`, at
      `nowMs` milliseconds since the epoch. */
  function NewSlug(slugify: Slugifier, title: string, nowMs: nat): string
  {
    slugify(title) + "-" + Last6(Decimal(nowMs))
  }

  /** A new slug is the slugified title, a '-', and one to six decimal digits;
      so it is never empty, whatever `slugify` returns. */
  lemma NewSlugShape(slugify: Slugifier, title: string, nowMs: nat)
    ensures var s := NewSlug(slugify, title, nowMs);
            var k := |Last6(Decimal(nowMs))|;
            && 1 <= k <= 6
            && s == slugify(title) + "-" + s[|s| - k..]
            && forall i :: |s| - k <= i < |s| ==> IsDecimalDigit(s[i])
  {
    var d := Decimal(nowMs);
    var l := Last6(d);
    var s := NewSlug(slugify, title, nowMs);
    assert s[|s| - |l|..] == l;
    forall i | |s| - |l| <= i < |s| ensures IsDecimalDigit(s[i]) {
      assert s[i] == l[i - (|s| - |l|)] == d[|d| - |l| + i - (|s| - |l|)];
    }
  }

  function Pow10(k: nat): nat
  {
    if k == 0 then 1 else 10 * Pow10(k - 1)
  }

  /** The `k` lowest decimal digits of `n`, with leading zeros. */
  function LowDigits(n: nat, k: nat): (r: string)
    ensures |r| == k
  {
    if k == 0 then [] else LowDigits(n / 10, k - 1) + [DigitChar(n % 10)]
  }

  lemma {:induction false} DecimalLength(n: nat, k: nat)
    requires n >= Pow10(k)
    ensures |Decimal(n)| >= k + 1
  {
    if k > 0 {
      assert n / 10 >= Pow10(k - 1);
      DecimalLength(n / 10, k - 1);
    }
  }

  /** The last `k` characters of `n.toString()` are its `k` lowest digits. */
  lemma {:induction false} DecimalSuffix(n: nat, k: nat)
    requires k <= |Decimal(n)|
    ensures Decimal(n)[|Decimal(n)| - k..] == LowDigits(n, k)
  {
    if k > 0 {
      if n < 10 {
        DecimalSuffixDigit(n);
      } else {
        assert |Decimal(n)| == |Decimal(n / 10)| + 1;
        DecimalSuffix(n / 10, k - 1);
        DecimalSuffixStep(n, k);
      }
    }
  }

  lemma {:induction false} DecimalSuffixDigit(n: nat)
    requires n < 10
    ensures Decimal(n)[|Decimal(n)| - 1..] == LowDigits(n, 1)
  {
    assert n % 10 == n && n / 10 == 0;
    assert LowDigits(n, 1) == LowDigits(0, 0) + [DigitChar(n)];
    assert Decimal(n) == [DigitChar(n)];
  }

  lemma {:induction false} DecimalSuffixStep(n: nat, k: nat)
    requires n >= 10 && 0 < k <= |Decimal(n)|
    requires Decimal(n / 10)[|Decimal(n / 10)| - (k - 1)..] == LowDigits(n / 10, k - 1)
    ensures Decimal(n)[|Decimal(n)| - k..] == LowDigits(n, k)
  {
    var c := DigitChar(n % 10);
    var h := Decimal(n / 10);
    assert Decimal(n) == h + [c];
    assert LowDigits(n, k) == LowDigits(n / 10, k - 1) + [c];
    assert (h + [c])[|h| + 1 - k..] == h[|h| - (k - 1)..] + [c];
  }

  /** The `k` lowest digits do not see multiples of 10^k. */
  lemma {:induction false} LowDigitsPeriodic(n: nat, k: nat, m: nat)
    ensures LowDigits(n + Pow10(k) * m, k) == LowDigits(n, k)
  {
    if k > 0 {
      var q := Pow10(k - 1) * m;
      assert Pow10(k) * m == 10 * q;
      assert (n + 10 * q) / 10 == n / 10 + q;
      assert (n + 10 * q) % 10 == n % 10;
      LowDigitsPeriodic(n / 10, k - 1, m);
    }
  }

  /** The suffix repeats every 1,000,000 ms: two articles with the same title
      created 1000 seconds apart get the same slug, and the second one then
      fails the unique index on `slug`. */
  lemma NewSlugRepeats(slugify: Slugifier, title: string, nowMs: nat)
    requires nowMs >= 100000
    ensures NewSlug(slugify, title, nowMs) == NewSlug(slugify, title, nowMs + 1000000)
  {
    assert Pow10(5) == 100000 && Pow10(6) == 1000000;
    DecimalLength(nowMs, 5);
    DecimalLength(nowMs + 1000000, 5);
    DecimalSuffix(nowMs, 6);
    DecimalSuffix(nowMs + 1000000, 6);
    LowDigitsPeriodic(nowMs, 6, 1);
  }

  // ---- Validation ---------------------------------------------------------

  /** The validators of the columns `save` checks, in declaration order:
      every column of a new record (`loaded == None`), only the changed
      columns of a loaded one. A null slug fails the not-null check; title,
      description and body must pass `notEmpty`. */
  function ArticleIssues(slug: Option<string>, title: string, description: string, body: string,
                         loaded: Option<Article>): (r: seq<PathMessage>)
    ensures r == [] <==>
              && (loaded.None? || Some(loaded.value.slug) != slug ==> slug.Some?)
              && (loaded.None? || loaded.value.title != title ==> NotBlank(title))
              && (loaded.None? || loaded.value.description != description ==> NotBlank(description))
              && (loaded.None? || loaded.value.body != body ==> NotBlank(body))
    ensures forall x :: x in r ==> x.path in {"slug", "title", "description", "body"}
  {
    (if (loaded.None? || Some(loaded.value.slug) != slug) && slug.None?
     then [PathMessage("slug", "Article.slug cannot be null")] else [])
    + (if (loaded.None? || loaded.value.title != title) && !NotBlank(title)
       then [PathMessage("title", "Title cannot be empty")] else [])
    + (if (loaded.None? || loaded.value.description != description) && !NotBlank(description)
       then [PathMessage("description", "Description cannot be empty")] else [])
    + (if (loaded.None? || loaded.value.body != body) && !NotBlank(body)
       then [PathMessage("body", "Body cannot be empty")] else [])
  }

  /** An article instance being saved: the row as loaded (`None` for a new
      one) and the attribute values set on it. */
  class ArticleRecord {
    const loaded: Option<Article>
    var slug: Option<string>
    var title: string
    var description: string
    var body: string

    /** `Article.build({title, description, body, author_id})`: no slug yet. */
    constructor Build(title: string, description: string, body: string)
      ensures loaded == None && slug == None
      ensures this.title == title && this.description == description && this.body == body
    {
      loaded := None;
      slug := None;
      this.title, this.description, this.body := title, description, body;
    }

    /** An instance loaded from the table. */
    constructor Load(a: Article)
      ensures loaded == Some(a) && slug == Some(a.slug)
      ensures title == a.title && description == a.description && body == a.body
    {
      loaded := Some(a);
      slug := Some(a.slug);
      title, description, body := a.title, a.description, a.body;
    }

    function Issues(): seq<PathMessage>
      reads this
    {
      ArticleIssues(slug, title, description, body, loaded)
    }

    /** `beforeValidate`: with a non-empty title and no slug yet, the slug
        becomes the slugified title plus the clock suffix; otherwise nothing
        changes, so an article keeps its slug when retitled. */
    method BeforeValidate(slugify: Slugifier, nowMs: nat)
      modifies this
      ensures title == old(title) && description == old(description) && body == old(body)
      ensures old(title) != "" && !Truthy(old(slug)) ==> slug == Some(NewSlug(slugify, old(title), nowMs))
      ensures old(title) == "" || Truthy(old(slug)) ==> slug == old(slug)
    {
      if title != "" {
        if !Truthy(slug) {
          slug := Some(NewSlug(slugify, title, nowMs));
        }
      }
    }
  }
}
