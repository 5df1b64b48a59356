/**
 * Counter.most_common(n) over the word counts of a text file: the pairs
 * ordered by decreasing count (ties keep their first-seen order), cut to
 * the first n.
 */
module WordCounts {

  /** A word and the number of times it occurs. */
  type Count = (string, nat)

  ghost predicate SortedByCount(s: seq<Count>) {
    forall i, j :: 0 <= i < j < |s| ==> s[i].1 >= s[j].1
  }

  /** Inserts `x` before the first entry with a smaller count, after the ones with a larger one. */
  function InsertByCount(x: Count, s: seq<Count>): (r: seq<Count>)
    ensures multiset(r) == multiset(s) + multiset{x}
    ensures |r| == |s| + 1
  {
    if s == [] || x.1 >= s[0].1 then [x] + s
    else
      assert s == [s[0]] + s[1..];
      [s[0]] + InsertByCount(x, s[1..])
  }

  /** Inserting into a sorted list keeps it sorted. */
  lemma {:induction false} InsertByCountSorted(x: Count, s: seq<Count>)
    requires SortedByCount(s)
    ensures SortedByCount(InsertByCount(x, s))
  {
    if s != [] && x.1 < s[0].1 {
      var tail := InsertByCount(x, s[1..]);
      InsertByCountSorted(x, s[1..]);
      forall k | 0 <= k < |tail| ensures tail[k].1 <= s[0].1 {
        assert tail[k] in multiset(tail);
        if tail[k] != x {
          assert tail[k] in multiset(s[1..]);
          var m :| 0 <= m < |s[1..]| && s[1..][m] == tail[k];
          assert s[m + 1] == tail[k];
        }
      }
    }
  }

  /** A stable sort by decreasing count. */
  function SortByCount(cs: seq<Count>): (r: seq<Count>)
    ensures SortedByCount(r)
    ensures multiset(r) == multiset(cs)
    ensures |r| == |cs|
  {
    if cs == [] then []
    else
      assert cs == [cs[0]] + cs[1..];
      InsertByCountSorted(cs[0], SortByCount(cs[1..]));
      InsertByCount(cs[0], SortByCount(cs[1..]))
  }

  /** The `n` most frequent entries, most frequent first. */
  function MostCommon(cs: seq<Count>, n: nat): seq<Count> {
    var sorted := SortByCount(cs);
    if n < |sorted| then sorted[..n] else sorted
  }

  /** The words of a list of counts, in order. */
  function WordsOf(cs: seq<Count>): (ws: seq<string>)
    ensures |ws| == |cs|
    ensures forall i :: 0 <= i < |cs| ==> ws[i] == cs[i].0
  {
    seq(|cs|, i requires 0 <= i < |cs| => cs[i].0)
  }

  /** A word is listed exactly when some count for it is. */
  lemma WordsOfMembership(cs: seq<Count>, w: string)
    ensures w in WordsOf(cs) <==> exists c :: (w, c) in cs
  {
    var ws := WordsOf(cs);
    if w in ws {
      var i :| 0 <= i < |ws| && ws[i] == w;
      assert (w, cs[i].1) == cs[i];
    }
    if c :| (w, c) in cs {
      var i :| 0 <= i < |cs| && cs[i] == (w, c);
      assert ws[i] == w;
    }
  }

  /** most_common(n) keeps min(n, |cs|) entries, taken from `cs`, in decreasing order of count. */
  lemma MostCommonShape(cs: seq<Count>, n: nat)
    ensures |MostCommon(cs, n)| == if n < |cs| then n else |cs|
    ensures SortedByCount(MostCommon(cs, n))
    ensures multiset(MostCommon(cs, n)) <= multiset(cs)
  {
    var sorted := SortByCount(cs);
    if n < |sorted| {
      PrefixMultiset(sorted, n);
    }
  }

  lemma PrefixMultiset(s: seq<Count>, n: nat)
    requires n <= |s|
    ensures multiset(s[..n]) <= multiset(s)
  {
    assert s == s[..n] + s[n..];
  }

  /** No entry that most_common(n) drops outnumbers an entry it keeps. */
  lemma MostCommonDropsLessFrequent(cs: seq<Count>, n: nat, p: Count, q: Count)
    requires p in cs && p !in MostCommon(cs, n) && q in MostCommon(cs, n)
    ensures p.1 <= q.1
  {
    var sorted := SortByCount(cs);
    var top := MostCommon(cs, n);
    assert p in multiset(cs);
    assert p in sorted;
    var k :| 0 <= k < |sorted| && sorted[k] == p;
    var m :| 0 <= m < |top| && top[m] == q;
    if n < |sorted| {
      assert sorted[m] == q;
    }
  }
}
