/** Ordering of scored candidates: a stable sort by score, highest first.
    A new entry is placed after every entry whose score is at least its own,
    so entries with equal scores keep the order in which they arrived. */
module Ranking {
  import opened Catalog

  /** A candidate phone together with its similarity score. */
  datatype Scored = Scored(phone: Phone, score: real)

  /** Scores never increase along `s`. */
  predicate SortedDesc(s: seq<Scored>) {
    forall i, j :: 0 <= i < j < |s| ==> s[i].score >= s[j].score
  }

  /** The entries of `s` whose score is exactly `c`, in their order in `s`. */
  function OfScore(s: seq<Scored>, c: real): (r: seq<Scored>)
    ensures |r| <= |s|
  {
    if |s| == 0 then []
    else (if s[0].score == c then [s[0]] else []) + OfScore(s[1..], c)
  }

  /** Inserts `x` into `s`, scanning from the back past every entry with a
      strictly lower score. */
  function Insert(s: seq<Scored>, x: Scored): seq<Scored>
  {
    if |s| == 0 then [x]
    else if s[|s| - 1].score < x.score then Insert(s[..|s| - 1], x) + [s[|s| - 1]]
    else s + [x]
  }

  /** Insertion adds exactly the one entry. */
  lemma {:induction false} InsertPermutes(s: seq<Scored>, x: Scored)
    ensures multiset(Insert(s, x)) == multiset(s) + multiset{x}
  {
    if |s| > 0 && s[|s| - 1].score < x.score {
      assert s == s[..|s| - 1] + [s[|s| - 1]];
      InsertPermutes(s[..|s| - 1], x);
    }
  }

  /** The stable descending sort by score, one insertion per entry; the
      result is a permutation of the input. */
  function SortDesc(s: seq<Scored>): (r: seq<Scored>)
    ensures multiset(r) == multiset(s)
  {
    if |s| == 0 then []
    else
      assert s == s[..|s| - 1] + [s[|s| - 1]];
      InsertPermutes(SortDesc(s[..|s| - 1]), s[|s| - 1]);
      Insert(SortDesc(s[..|s| - 1]), s[|s| - 1])
  }

  lemma {:induction false} InsertSorted(s: seq<Scored>, x: Scored)
    requires SortedDesc(s)
    ensures SortedDesc(Insert(s, x))
  {
    if |s| > 0 && s[|s| - 1].score < x.score {
      var init := s[..|s| - 1];
      var last := s[|s| - 1];
      InsertSorted(init, x);
      InsertPermutes(init, x);
      var t := Insert(init, x);
      forall i | 0 <= i < |t|
        ensures t[i].score >= last.score
      {
        assert t[i] in multiset(t);
        assert t[i] == x || t[i] in multiset(init);
      }
    }
  }

  /** The sort orders by score, highest first. */
  lemma {:induction false} SortDescSorted(s: seq<Scored>)
    ensures SortedDesc(SortDesc(s))
  {
    if |s| > 0 {
      SortDescSorted(s[..|s| - 1]);
      InsertSorted(SortDesc(s[..|s| - 1]), s[|s| - 1]);
    }
  }

  lemma {:induction false} OfScoreAppend(a: seq<Scored>, b: seq<Scored>, c: real)
    ensures OfScore(a + b, c) == OfScore(a, c) + OfScore(b, c)
  {
    if |a| > 0 {
      assert (a + b)[1..] == a[1..] + b;
      OfScoreAppend(a[1..], b, c);
    } else {
      assert a + b == b;
    }
  }

  lemma {:induction false} InsertStable(s: seq<Scored>, x: Scored, c: real)
    ensures OfScore(Insert(s, x), c) == OfScore(s, c) + OfScore([x], c)
  {
    if |s| == 0 {
    } else if s[|s| - 1].score < x.score {
      var init := s[..|s| - 1];
      var last := s[|s| - 1];
      assert s == init + [last];
      InsertStable(init, x, c);
      OfScoreAppend(Insert(init, x), [last], c);
      OfScoreAppend(init, [last], c);
      assert OfScore([x], c) == [] || OfScore([last], c) == [] by {
        assert [x][1..] == [] && [last][1..] == [];
      }
    } else {
      OfScoreAppend(s, [x], c);
    }
  }

  /** The sort is stable: for every score, the entries with that score come
      out in the order they went in. */
  lemma {:induction false} SortDescStable(s: seq<Scored>, c: real)
    ensures OfScore(SortDesc(s), c) == OfScore(s, c)
  {
    if |s| > 0 {
      var init := s[..|s| - 1];
      var last := s[|s| - 1];
      SortDescStable(init, c);
      InsertStable(SortDesc(init), last, c);
      assert s == init + [last];
      OfScoreAppend(init, [last], c);
    }
  }

  /** One step of the insertion sort: the entry at index `i` is moved down
      past the entries of the (already sorted) prefix `a[..i]` whose score is
      strictly lower, each of which moves up by one. */
  method InsertInPlace(a: array<Scored>, i: nat)
    requires i < a.Length
    modifies a
    ensures a[..i + 1] == Insert(old(a[..i]), old(a[i]))
    ensures a[i + 1..] == old(a[i + 1..])
  {
    ghost var prefix := a[..i];
    var key := a[i];
    var j := i;
    while j > 0 && a[j - 1].score < key.score
      invariant 0 <= j <= i
      invariant forall k :: 0 <= k < j ==> a[k] == prefix[k]
      invariant forall k :: j < k <= i ==> a[k] == prefix[k - 1]
      invariant forall k :: i < k < a.Length ==> a[k] == old(a[k])
      invariant forall k :: j <= k < i ==> prefix[k].score < key.score
    {
      a[j] := a[j - 1];
      j := j - 1;
    }
    a[j] := key;
    InsertAfterLower(prefix, j, key);
    ShiftedIsInsertion(a[..], prefix, j, key);
    assert a[i + 1..] == old(a[i + 1..]);
  }

  /** Where the backward scan stops, past entries all scored strictly lower,
      the key goes. */
  lemma {:induction false} InsertAfterLower(prefix: seq<Scored>, j: nat, key: Scored)
    requires j <= |prefix|
    requires forall k :: j <= k < |prefix| ==> prefix[k].score < key.score
    requires j == 0 || prefix[j - 1].score >= key.score
    ensures Insert(prefix, key) == prefix[..j] + [key] + prefix[j..]
  {
    if j < |prefix| {
      var init := prefix[..|prefix| - 1];
      var last := prefix[|prefix| - 1];
      assert last.score < key.score;
      assert Insert(prefix, key) == Insert(init, key) + [last];
      InsertAfterLower(init, j, key);
      assert init[..j] == prefix[..j];
      assert init[j..] + [last] == prefix[j..];
    } else {
      assert prefix[..j] == prefix && prefix[j..] == [];
    }
  }

  /** The array contents left by the scan: the prefix up to `j`, the key, then
      the rest of the prefix moved up by one. */
  lemma ShiftedIsInsertion(s: seq<Scored>, prefix: seq<Scored>, j: nat, key: Scored)
    requires j <= |prefix| < |s|
    requires forall k :: 0 <= k < j ==> s[k] == prefix[k]
    requires s[j] == key
    requires forall k :: j < k <= |prefix| ==> s[k] == prefix[k - 1]
    ensures s[..|prefix| + 1] == prefix[..j] + [key] + prefix[j..]
  {
    var expected := prefix[..j] + [key] + prefix[j..];
    forall k | 0 <= k <= |prefix|
      ensures s[k] == expected[k]
    {
      if k < j {
        assert expected[k] == prefix[k];
      } else if k == j {
        assert expected[k] == key;
      } else {
        assert expected[k] == prefix[k - 1];
      }
    }
  }

  /** Sorting one more entry of `s` inserts it into the sorted prefix. */
  lemma SortDescPrefixStep(s: seq<Scored>, i: nat)
    requires i < |s|
    ensures SortDesc(s[..i + 1]) == Insert(SortDesc(s[..i]), s[i])
  {
    assert s[..i + 1][..i] == s[..i];
  }

  /** The in-place insertion sort: after it, the array holds the stable
      descending sort of what it held before. */
  method SortByScore(a: array<Scored>)
    modifies a
    ensures a[..] == SortDesc(old(a[..]))
  {
    ghost var orig := a[..];
    for i := 0 to a.Length
      invariant a[..i] == SortDesc(orig[..i])
      invariant a[i..] == orig[i..]
    {
      ghost var before := a[..];
      assert before[i] == orig[i] && before[i + 1..] == orig[i + 1..] by {
        assert before[i..] == orig[i..];
      }
      InsertInPlace(a, i);
      SortDescPrefixStep(orig, i);
    }
    assert orig[..a.Length] == orig;
  }
}
