/** `ORDER BY created_at DESC` and `LIMIT`/`OFFSET` over rows held in a
    sequence. Rows created in the same instant are ordered by id, newest
    (highest) id first. */
module Ordering {

  /** The sort key of a row: its creation time and its primary key. */
  datatype Stamp = Stamp(time: nat, id: nat)

  /** `a` sorts no later than `b` in newest-first order. */
  predicate NotOlder(a: Stamp, b: Stamp) {
    a.time > b.time || (a.time == b.time && a.id >= b.id)
  }

  predicate NewestFirst<T>(s: seq<T>, key: T -> Stamp) {
    forall i, j :: 0 <= i < j < |s| ==> NotOlder(key(s[i]), key(s[j]))
  }

  /** `x` placed into a newest-first sequence before the first row it is
      not older than. */
  function Insert<T>(x: T, s: seq<T>, key: T -> Stamp): (r: seq<T>)
    requires NewestFirst(s, key)
    ensures multiset(r) == multiset(s) + multiset{x}
    ensures NewestFirst(r, key)
  {
    if s == [] then [x]
    else if NotOlder(key(x), key(s[0])) then [x] + s
    else
      var t := Insert(x, s[1..], key);
      InsertBehindHead(x, s, t, key);
      [s[0]] + t
  }

  /** When `x` is older than the head, the head stays first and `x` goes
      into the rest. */
  lemma InsertBehindHead<T>(x: T, s: seq<T>, t: seq<T>, key: T -> Stamp)
    requires s != [] && NewestFirst(s, key) && !NotOlder(key(x), key(s[0]))
    requires NewestFirst(t, key) && multiset(t) == multiset(s[1..]) + multiset{x}
    ensures multiset([s[0]] + t) == multiset(s) + multiset{x}
    ensures NewestFirst([s[0]] + t, key)
  {
    assert s == [s[0]] + s[1..];
    forall j | 0 <= j < |t| ensures NotOlder(key(s[0]), key(t[j])) {
      assert t[j] in multiset(t);
      if t[j] != x {
        assert t[j] in multiset(s[1..]);
        var m :| 0 <= m < |s[1..]| && s[1..][m] == t[j];
        assert s[m + 1] == t[j];
      }
    }
    var r := [s[0]] + t;
    forall i, j | 0 <= i < j < |r| ensures NotOlder(key(r[i]), key(r[j])) {
      assert r[j] == t[j - 1];
      if i > 0 { assert r[i] == t[i - 1]; }
    }
  }

  /** The rows sorted newest first: the same rows (as a multiset), in order. */
  function SortNewestFirst<T>(s: seq<T>, key: T -> Stamp): (r: seq<T>)
    ensures multiset(r) == multiset(s)
    ensures NewestFirst(r, key)
  {
    if s == [] then []
    else
      assert s == [s[0]] + s[1..];
      Insert(s[0], SortNewestFirst(s[1..], key), key)
  }

  /** `LIMIT limit OFFSET offset`: the rows from position `offset` on, at
      most `limit` of them. */
  function Page<T>(s: seq<T>, limit: nat, offset: nat): (r: seq<T>)
    ensures |r| == if offset >= |s| then 0 else if |s| - offset < limit then |s| - offset else limit
    ensures forall i :: 0 <= i < |r| ==> offset + i < |s| && r[i] == s[offset + i]
  {
    if offset >= |s| then []
    else if |s| - offset < limit then s[offset..]
    else s[offset..offset + limit]
  }

  /** A page of a newest-first sequence is newest first. */
  lemma PageNewestFirst<T>(s: seq<T>, limit: nat, offset: nat, key: T -> Stamp)
    requires NewestFirst(s, key)
    ensures NewestFirst(Page(s, limit, offset), key)
  {
    var r := Page(s, limit, offset);
    forall i, j | 0 <= i < j < |r| ensures NotOlder(key(r[i]), key(r[j])) {
      assert r[i] == s[offset + i] && r[j] == s[offset + j];
    }
  }
}
