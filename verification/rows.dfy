/** Row selection as a `WHERE` clause performs it: the rows that satisfy a
    condition, in storage order. */
module Rows {
  import opened Wrappers

  /** The position of the first row whose key is `k`, as a lookup by primary
      key returns it, if any. */
  function IndexOf<T, K(==)>(s: seq<T>, key: T -> K, k: K): (r: Option<nat>)
    ensures r.None? <==> forall i :: 0 <= i < |s| ==> key(s[i]) != k
    ensures r.Some? ==> r.value < |s| && key(s[r.value]) == k
    ensures r.Some? ==> forall i :: 0 <= i < r.value ==> key(s[i]) != k
  {
    if |s| == 0 then None
    else if key(s[0]) == k then Some(0)
    else
      match IndexOf(s[1..], key, k)
      case None => None
      case Some(j) => Some(j + 1)
  }

  /** Python truthiness of an optional text parameter: `None` and `""` are
      false, so the route skips that filter. */
  predicate Given(s: Option<string>) {
    s.Some? && s.value != ""
  }

  /** The id an INTEGER PRIMARY KEY column gives a new row: one above the
      largest id in use, and 1 in an empty table. */
  function NextKey<T>(s: seq<T>, key: T -> int): (r: nat)
    ensures r >= 1
    ensures forall x :: x in s ==> key(x) < r
  {
    if |s| == 0 then 1
    else
      var rest := NextKey(s[1..], key);
      assert forall x :: x in s ==> x == s[0] || x in s[1..];
      if key(s[0]) + 1 > rest then key(s[0]) + 1 else rest
  }

  /** Row `k` of a table with row `i` deleted. */
  lemma RemoveAtIndex<T>(s: seq<T>, i: nat, k: nat)
    requires i < |s| && k < |s| - 1
    ensures (s[..i] + s[i + 1..])[k] == s[if k < i then k else k + 1]
  {
  }

  /** Deleting row `i` of a table whose keys are distinct removes exactly
      the rows with its key, and the keys stay distinct. */
  lemma RemoveAtKeys<T, K>(s: seq<T>, key: T -> K, i: nat)
    requires i < |s|
    requires forall a, b :: 0 <= a < b < |s| ==> key(s[a]) != key(s[b])
    ensures forall x :: x in s[..i] + s[i + 1..] <==> x in s && key(x) != key(s[i])
    ensures var t := s[..i] + s[i + 1..];
      forall a, b :: 0 <= a < b < |t| ==> key(t[a]) != key(t[b])
  {
    var t := s[..i] + s[i + 1..];
    forall k | 0 <= k < |t|
      ensures t[k] == s[if k < i then k else k + 1]
    {
      RemoveAtIndex(s, i, k);
    }
    forall a, b | 0 <= a < b < |t|
      ensures key(t[a]) != key(t[b])
    {
      var a', b' := if a < i then a else a + 1, if b < i then b else b + 1;
      assert a' < b';
    }
    forall x | x in s && key(x) != key(s[i])
      ensures x in t
    {
      var k :| 0 <= k < |s| && s[k] == x;
      assert k != i;
      var k' := if k < i then k else k - 1;
      assert t[k'] == x;
    }
    forall x | x in t
      ensures x in s && key(x) != key(s[i])
    {
      var k :| 0 <= k < |t| && t[k] == x;
      var k' := if k < i then k else k + 1;
      assert s[k'] == x && k' != i;
    }
  }

  /** `query.filter(cond)`. */
  function Where<T(!new)>(s: seq<T>, cond: T -> bool): (r: seq<T>)
    ensures forall x :: x in r <==> x in s && cond(x)
    ensures |r| <= |s|
  {
    if |s| == 0 then []
    else if cond(s[0]) then [s[0]] + Where(s[1..], cond)
    else Where(s[1..], cond)
  }

  /** A filter keeps every copy of a row meeting the condition and no copy
      of any other. */
  lemma {:induction false} WhereMultiset<T(!new)>(s: seq<T>, cond: T -> bool)
    ensures forall x :: multiset(Where(s, cond))[x] == if cond(x) then multiset(s)[x] else 0
  {
    if |s| > 0 {
      WhereMultiset(s[1..], cond);
      assert s == [s[0]] + s[1..];
      assert multiset(s) == multiset{s[0]} + multiset(s[1..]);
      if cond(s[0]) {
        assert Where(s, cond) == [s[0]] + Where(s[1..], cond);
        assert multiset(Where(s, cond)) == multiset{s[0]} + multiset(Where(s[1..], cond));
      }
    }
  }

  /** `query.filter(cond).count()`. */
  function Count<T(!new)>(s: seq<T>, cond: T -> bool): (n: nat)
    ensures n <= |s|
  {
    |Where(s, cond)|
  }

  /** Two chained filters select what their conjunction selects, in the same
      order. */
  lemma {:induction false} WhereWhere<T(!new)>(s: seq<T>, c1: T -> bool, c2: T -> bool, both: T -> bool)
    requires forall x :: both(x) == (c1(x) && c2(x))
    ensures Where(Where(s, c1), c2) == Where(s, both)
  {
    if |s| > 0 {
      WhereWhere(s[1..], c1, c2, both);
      if c1(s[0]) {
        assert Where(s, c1) == [s[0]] + Where(s[1..], c1);
        assert Where(s, c1)[1..] == Where(s[1..], c1);
      }
    }
  }

  /** Conditions that agree on every row select the same rows. */
  lemma {:induction false} WhereSame<T(!new)>(s: seq<T>, c1: T -> bool, c2: T -> bool)
    requires forall x :: x in s ==> c1(x) == c2(x)
    ensures Where(s, c1) == Where(s, c2)
  {
    if |s| > 0 {
      WhereSame(s[1..], c1, c2);
    }
  }

  /** A condition every row satisfies selects all of them. */
  lemma {:induction false} WhereAll<T(!new)>(s: seq<T>, cond: T -> bool)
    requires forall x :: x in s ==> cond(x)
    ensures Where(s, cond) == s
  {
    if |s| > 0 {
      WhereAll(s[1..], cond);
      assert s == [s[0]] + s[1..];
    }
  }

  /** Counting over disjoint conditions never exceeds the row count. */
  lemma {:induction false} CountDisjoint<T(!new)>(s: seq<T>, c1: T -> bool, c2: T -> bool)
    requires forall x :: !(c1(x) && c2(x))
    ensures Count(s, c1) + Count(s, c2) <= |s|
  {
    if |s| > 0 {
      CountDisjoint(s[1..], c1, c2);
    }
  }

  /** A row appended to the table is selected after the others, if at all. */
  lemma {:induction false} WhereAppend<T(!new)>(s: seq<T>, x: T, cond: T -> bool)
    ensures Where(s + [x], cond) == Where(s, cond) + (if cond(x) then [x] else [])
  {
    if |s| > 0 {
      assert (s + [x])[1..] == s[1..] + [x];
      WhereAppend(s[1..], x, cond);
    } else {
      assert s + [x] == [x];
    }
  }
}
