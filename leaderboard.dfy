/**
  The top-three leaderboard: a guild's entries sorted by XP, highest first,
  with Python's stable `sorted(..., reverse=True)` (entries of equal XP keep
  their table order), cut to the first three.
 */
module Leaderboard {
  import opened Tables

  const TOP_COUNT: nat := 3

  predicate Descending(s: seq<Entry>)
  {
    forall i, j :: 0 <= i < j < |s| ==> s[i].xp >= s[j].xp
  }

  /** The entries of `s` whose XP is `v`, in the order of `s`. */
  function WithXp(s: seq<Entry>, v: int): seq<Entry>
  {
    if s == [] then [] else (if s[0].xp == v then [s[0]] else []) + WithXp(s[1..], v)
  }

  /** Every entry of `s` has at most `v` XP. */
  predicate AtMost(s: seq<Entry>, v: int)
  {
    forall i :: 0 <= i < |s| ==> s[i].xp <= v
  }

  /** Places `e` after every leading entry with at least its XP. */
  function Insert(e: Entry, s: seq<Entry>): (r: seq<Entry>)
    ensures |r| == |s| + 1
    ensures multiset(r) == multiset(s) + multiset{e}
  {
    if s == [] then [e]
    else if s[0].xp >= e.xp then
      assert s == [s[0]] + s[1..];
      [s[0]] + Insert(e, s[1..])
    else [e] + s
  }

  lemma {:induction false} InsertAtMost(e: Entry, s: seq<Entry>, v: int)
    requires AtMost(s, v) && e.xp <= v
    ensures AtMost(Insert(e, s), v)
  {
    if s != [] && s[0].xp >= e.xp {
      InsertAtMost(e, s[1..], v);
    }
  }

  /** Inserting into a descending sequence keeps it descending. */
  lemma {:induction false} InsertDescending(e: Entry, s: seq<Entry>)
    requires Descending(s)
    ensures Descending(Insert(e, s))
  {
    if s != [] && s[0].xp >= e.xp {
      var rest := Insert(e, s[1..]);
      InsertDescending(e, s[1..]);
      InsertAtMost(e, s[1..], s[0].xp);
      assert Insert(e, s) == [s[0]] + rest;
    }
  }

  /** Stable sort by decreasing XP: entries are inserted oldest first. */
  function SortDesc(t: seq<Entry>): (r: seq<Entry>)
    ensures Descending(r)
    ensures |r| == |t|
    ensures multiset(r) == multiset(t)
  {
    if t == [] then []
    else
      assert t == t[..|t| - 1] + [t[|t| - 1]];
      var sorted := SortDesc(t[..|t| - 1]);
      InsertDescending(t[|t| - 1], sorted);
      Insert(t[|t| - 1], sorted)
  }

  lemma {:induction false} WithXpConcat(a: seq<Entry>, b: seq<Entry>, v: int)
    ensures WithXp(a + b, v) == WithXp(a, v) + WithXp(b, v)
  {
    if a == [] {
      assert a + b == b;
    } else {
      var h := if a[0].xp == v then [a[0]] else [];
      assert (a + b)[0] == a[0];
      assert (a + b)[1..] == a[1..] + b;
      WithXpConcat(a[1..], b, v);
      calc {
        WithXp(a + b, v);
        h + WithXp(a[1..] + b, v);
        h + (WithXp(a[1..], v) + WithXp(b, v));
        (h + WithXp(a[1..], v)) + WithXp(b, v);
      }
    }
  }

  lemma {:induction false} WithXpBelow(s: seq<Entry>, v: int)
    requires forall i :: 0 <= i < |s| ==> s[i].xp < v
    ensures WithXp(s, v) == []
  {
    if s != [] {
      WithXpBelow(s[1..], v);
    }
  }

  lemma WithXpCons(x: Entry, a: seq<Entry>, b: seq<Entry>, v: int, tail: seq<Entry>)
    requires WithXp(a, v) == WithXp(b, v) + tail
    ensures WithXp([x] + a, v) == WithXp([x] + b, v) + tail
  {
    assert ([x] + a)[1..] == a;
    assert ([x] + b)[1..] == b;
  }

  lemma DescendingTail(s: seq<Entry>)
    requires Descending(s) && s != []
    ensures Descending(s[1..])
  {
    forall i, j | 0 <= i < j < |s[1..]|
      ensures s[1..][i].xp >= s[1..][j].xp
    {
      assert s[1..][i] == s[i + 1] && s[1..][j] == s[j + 1];
    }
  }

  /** Inserting `e` puts it after every entry of equal XP and moves no other entry past another. */
  lemma {:induction false} InsertStable(e: Entry, s: seq<Entry>, v: int)
    requires Descending(s)
    ensures WithXp(Insert(e, s), v) == WithXp(s, v) + (if e.xp == v then [e] else [])
  {
    if s == [] {
      assert Insert(e, s) == [e];
    } else if s[0].xp >= e.xp {
      var rest := Insert(e, s[1..]);
      var tail := if e.xp == v then [e] else [];
      DescendingTail(s);
      InsertStable(e, s[1..], v);
      WithXpCons(s[0], rest, s[1..], v, tail);
      assert Insert(e, s) == [s[0]] + rest;
      assert [s[0]] + s[1..] == s;
    } else {
      assert Insert(e, s) == [e] + s;
      WithXpConcat([e], s, v);
      if e.xp == v {
        assert forall i :: 0 <= i < |s| ==> s[i].xp <= s[0].xp;
        WithXpBelow(s, v);
      }
    }
  }

  /** The sort is stable: for every XP value, the entries with that value keep their relative order. */
  lemma {:induction false} SortStable(t: seq<Entry>)
    ensures forall v :: WithXp(SortDesc(t), v) == WithXp(t, v)
  {
    if t != [] {
      var p, x := t[..|t| - 1], t[|t| - 1];
      assert t == p + [x];
      SortStable(p);
      forall v
        ensures WithXp(SortDesc(t), v) == WithXp(t, v)
      {
        InsertStable(x, SortDesc(p), v);
        WithXpConcat(p, [x], v);
      }
    }
  }

  /** The cut keeps only entries of the table. */
  lemma TopKept(t: seq<Entry>, n: nat)
    requires n <= |t|
    ensures forall e :: e in SortDesc(t)[..n] ==> e in t
  {
    var s := SortDesc(t);
    forall e | e in s[..n]
      ensures e in t
    {
      assert e in multiset(s);
    }
  }

  /** An entry left out implies the table was cut at TOP_COUNT, after entries with at least its XP. */
  lemma TopDropped(t: seq<Entry>, n: nat)
    requires n == if |t| <= TOP_COUNT then |t| else TOP_COUNT
    ensures forall e :: e in t && e !in SortDesc(t)[..n] ==> n == TOP_COUNT && e.xp <= SortDesc(t)[n - 1].xp
  {
    var s := SortDesc(t);
    forall e | e in t && e !in s[..n]
      ensures n == TOP_COUNT && e.xp <= s[n - 1].xp
    {
      assert e in multiset(s);
      var k :| 0 <= k < |s| && s[k] == e;
      assert k >= n;
    }
  }

  /** The cut keeps, for each XP value, a prefix of the table's entries with that value. */
  lemma TopStable(t: seq<Entry>, n: nat)
    requires n <= |t|
    ensures forall v :: WithXp(SortDesc(t)[..n], v) <= WithXp(t, v)
  {
    var s := SortDesc(t);
    SortStable(t);
    forall v
      ensures WithXp(s[..n], v) <= WithXp(t, v)
    {
      assert s == s[..n] + s[n..];
      WithXpConcat(s[..n], s[n..], v);
    }
  }

  /** `get_top_members`: the first three entries of the stably sorted table. */
  function TopMembers(t: XpTable): (r: seq<Entry>)
    ensures |r| == if |t| <= TOP_COUNT then |t| else TOP_COUNT
    ensures Descending(r)
    ensures forall e :: e in r ==> e in t
    ensures forall e :: e in t && e !in r ==> |r| == TOP_COUNT && e.xp <= r[|r| - 1].xp
    ensures forall v :: WithXp(r, v) <= WithXp(t, v)
  {
    var n := if |t| <= TOP_COUNT then |t| else TOP_COUNT;
    TopKept(t, n);
    TopDropped(t, n);
    TopStable(t, n);
    SortDesc(t)[..n]
  }

  /** Three members with 120, 45 and 200 XP are listed 200, 120, 45. */
  lemma TopMembersExample()
    ensures TopMembers([Entry(1, 120), Entry(2, 45), Entry(3, 200)])
         == [Entry(3, 200), Entry(1, 120), Entry(2, 45)]
  {
    var t := [Entry(1, 120), Entry(2, 45), Entry(3, 200)];
    assert t[..2] == [Entry(1, 120), Entry(2, 45)];
    assert t[..2][..1] == [Entry(1, 120)];
    assert SortDesc([Entry(1, 120)]) == [Entry(1, 120)];
  }
}
