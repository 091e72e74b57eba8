/** Generic facts about a table held as a sequence of rows: a column whose
    values are pairwise distinct (a primary key or a unique index), and the
    row-level edits the store performs (insert at the end, replace one row,
    delete one row, delete every row matching a condition). */
module Tables {

  /** The column `key` holds no value twice. */
  predicate Unique<T, K(==)>(s: seq<T>, key: T -> K) {
    forall i, j :: 0 <= i < j < |s| ==> key(s[i]) != key(s[j])
  }

  /** The table without its `k`-th row. */
  function RemoveAt<T>(s: seq<T>, k: nat): (r: seq<T>)
    requires k < |s|
    ensures |r| == |s| - 1
    ensures forall i :: 0 <= i < k ==> r[i] == s[i]
    ensures forall i :: k <= i < |r| ==> r[i] == s[i + 1]
  {
    s[..k] + s[k + 1..]
  }

  /** The rows left after a deletion are the other rows. */
  lemma RemoveAtMembers<T>(s: seq<T>, k: nat, x: T)
    requires k < |s|
    ensures x in RemoveAt(s, k) ==> x in s
    ensures x in s && x != s[k] ==> x in RemoveAt(s, k)
  {
    var r := RemoveAt(s, k);
    if x in r {
      var i :| 0 <= i < |r| && r[i] == x;
      if i < k { assert s[i] == x; } else { assert s[i + 1] == x; }
    }
    if x in s && x != s[k] {
      var i :| 0 <= i < |s| && s[i] == x;
      if i < k { assert r[i] == x; } else { assert r[i - 1] == x; }
    }
  }

  lemma RemoveAtUnique<T, K>(s: seq<T>, k: nat, key: T -> K)
    requires k < |s| && Unique(s, key)
    ensures Unique(RemoveAt(s, k), key)
  {
    var r := RemoveAt(s, k);
    forall i, j | 0 <= i < j < |r| ensures key(r[i]) != key(r[j]) {
      var i' := if i < k then i else i + 1;
      var j' := if j < k then j else j + 1;
      assert r[i] == s[i'] && r[j] == s[j'];
    }
  }

  /** In a table unique on `key`, the row holding the removed row's key is gone. */
  lemma RemoveAtKeyGone<T, K>(s: seq<T>, k: nat, key: T -> K, x: T)
    requires k < |s| && Unique(s, key)
    requires x in RemoveAt(s, k)
    ensures key(x) != key(s[k])
  {
    var r := RemoveAt(s, k);
    var i :| 0 <= i < |r| && r[i] == x;
    if i < k { assert key(s[i]) != key(s[k]); } else { assert key(s[k]) != key(s[i + 1]); }
  }

  /** Inserting a row whose key is new keeps the column unique. */
  lemma AppendUnique<T, K>(s: seq<T>, x: T, key: T -> K)
    requires Unique(s, key)
    requires forall y :: y in s ==> key(y) != key(x)
    ensures Unique(s + [x], key)
  {
    var r := s + [x];
    forall i, j | 0 <= i < j < |r| ensures key(r[i]) != key(r[j]) {
      if j == |s| { assert r[i] == s[i]; }
    }
  }

  /** Replacing a row by one whose key no other row holds keeps the column unique. */
  lemma ReplaceUnique<T, K>(s: seq<T>, k: nat, x: T, key: T -> K)
    requires k < |s| && Unique(s, key)
    requires forall j :: 0 <= j < |s| && j != k ==> key(s[j]) != key(x)
    ensures Unique(s[k := x], key)
  {
  }

  /** The rows of `s` that satisfy `keep`, in table order. */
  function Filter<T>(s: seq<T>, keep: T -> bool): (r: seq<T>)
    ensures |r| <= |s|
    ensures forall i :: 0 <= i < |r| ==> r[i] in s && keep(r[i])
    ensures forall i :: 0 <= i < |s| && keep(s[i]) ==> s[i] in r
  {
    if s == [] then []
    else (if keep(s[0]) then [s[0]] else []) + Filter(s[1..], keep)
  }

  lemma {:induction false} FilterUnique<T, K>(s: seq<T>, keep: T -> bool, key: T -> K)
    requires Unique(s, key)
    ensures Unique(Filter(s, keep), key)
  {
    if s != [] {
      var rest := s[1..];
      assert Unique(rest, key) by {
        forall i, j | 0 <= i < j < |rest| ensures key(rest[i]) != key(rest[j]) {
          assert rest[i] == s[i + 1] && rest[j] == s[j + 1];
        }
      }
      FilterUnique(rest, keep, key);
      var t := Filter(rest, keep);
      if keep(s[0]) {
        var r := [s[0]] + t;
        forall i, j | 0 <= i < j < |r| ensures key(r[i]) != key(r[j]) {
          if i == 0 {
            assert r[j] in rest;
            var j' :| 0 <= j' < |rest| && rest[j'] == r[j];
            assert s[j' + 1] == r[j];
          } else {
            assert r[i] == t[i - 1] && r[j] == t[j - 1];
          }
        }
      }
    }
  }

  /** A condition every row meets keeps the whole table. */
  lemma {:induction false} FilterAll<T>(s: seq<T>, keep: T -> bool)
    requires forall i :: 0 <= i < |s| ==> keep(s[i])
    ensures Filter(s, keep) == s
  {
    if s != [] {
      FilterAll(s[1..], keep);
      assert s == [s[0]] + s[1..];
    }
  }

  /** A condition no row meets keeps nothing. */
  lemma {:induction false} FilterNone<T>(s: seq<T>, keep: T -> bool)
    requires forall i :: 0 <= i < |s| ==> !keep(s[i])
    ensures Filter(s, keep) == []
  {
    if s != [] {
      FilterNone(s[1..], keep);
    }
  }
}
