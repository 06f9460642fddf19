/**
 * The key choice of the heatmap step:
 * `sorted(keys, reverse=True)[:50000]`, a descending sort by Python's
 * string order followed by a cut to at most 50000 keys.
 */
module RecentKeys {

  import Lex
  import opened Collections

  const Limit: nat := 50000

  /** No key is below a key that comes after it. */
  predicate Descending(s: seq<string>)
  {
    forall i, j :: 0 <= i < j < |s| ==> !Lex.Less(s[i], s[j])
  }

  /** Inserts `x` into a descending sequence, in front of the first key not above it. */
  function Insert(x: string, s: seq<string>): (r: seq<string>)
    requires Descending(s)
    ensures Descending(r)
    ensures multiset(r) == multiset(s) + multiset{x}
    decreases |s|
  {
    if s == [] || !Lex.Less(x, s[0]) then
      InsertFrontKeepsOrder(x, s);
      [x] + s
    else
      var tail := Insert(x, s[1..]);
      assert s == [s[0]] + s[1..];
      HeadAboveAll(s[0], tail, s[1..], x);
      [s[0]] + tail
  }

  lemma InsertFrontKeepsOrder(x: string, s: seq<string>)
    requires Descending(s)
    requires s == [] || !Lex.Less(x, s[0])
    ensures Descending([x] + s)
  {
    forall i, j | 0 <= i < j < |[x] + s| ensures !Lex.Less(([x] + s)[i], ([x] + s)[j]) {
      if i == 0 && j > 1 {
        Lex.NotLessTransitive(x, s[0], s[j - 1]);
      }
    }
  }

  /** `h` followed by a descending `tail` whose keys are those of `rest` plus `x`. */
  lemma HeadAboveAll(h: string, tail: seq<string>, rest: seq<string>, x: string)
    requires Descending([h] + rest) && Descending(tail)
    requires multiset(tail) == multiset(rest) + multiset{x}
    requires Lex.Less(x, h)
    ensures Descending([h] + tail)
  {
    forall j | 0 <= j < |tail| ensures !Lex.Less(h, tail[j]) {
      assert tail[j] in multiset(tail);
      if tail[j] == x {
        Lex.LessAsymmetric(x, h);
      } else {
        assert tail[j] in multiset(rest);
        var k :| 0 <= k < |rest| && rest[k] == tail[j];
        assert ([h] + rest)[0] == h && ([h] + rest)[k + 1] == rest[k];
      }
    }
    forall i, j | 0 <= i < j < |[h] + tail| ensures !Lex.Less(([h] + tail)[i], ([h] + tail)[j]) {
      if i > 0 {
        assert ([h] + tail)[i] == tail[i - 1] && ([h] + tail)[j] == tail[j - 1];
      } else {
        assert ([h] + tail)[j] == tail[j - 1];
      }
    }
  }

  /** `sorted(ks, reverse=True)`: the keys of `ks`, highest first. */
  function SortDescending(ks: seq<string>): (r: seq<string>)
    ensures Descending(r)
    ensures multiset(r) == multiset(ks)
    decreases |ks|
  {
    if ks == [] then []
    else
      assert ks == [ks[0]] + ks[1..];
      Insert(ks[0], SortDescending(ks[1..]))
  }

  /** The first key of a descending sequence is not below any of its keys. */
  lemma HeadIsHighest(a: seq<string>, x: string)
    requires Descending(a) && x in a
    ensures !Lex.Less(a[0], x)
  {
    var i :| 0 <= i < |a| && a[i] == x;
    if i == 0 {
      Lex.LessIrreflexive(x);
    }
  }

  /** Two descending orderings of the same keys are the same sequence. */
  lemma {:induction false} DescendingUnique(a: seq<string>, b: seq<string>)
    requires Descending(a) && Descending(b) && multiset(a) == multiset(b)
    ensures a == b
    decreases |a|
  {
    assert |b| == |multiset(b)| == |a|;
    if a != [] {
      assert b[0] in multiset(a) && a[0] in multiset(b);
      HeadIsHighest(a, b[0]);
      HeadIsHighest(b, a[0]);
      assert a[0] == b[0] by {
        if a[0] != b[0] {
          Lex.LessTotal(a[0], b[0]);
        }
      }
      assert a == [a[0]] + a[1..] && b == [b[0]] + b[1..];
      assert multiset(a[1..]) == multiset(a) - multiset{a[0]};
      assert multiset(b[1..]) == multiset(b) - multiset{b[0]};
      DescendingUnique(a[1..], b[1..]);
    }
  }

  /**
   * `sorted(keys, reverse=True)[:50000]`: at most `Limit` keys, highest
   * first, and every key kept is at least as high as every key dropped.
   */
  function SelectRecent(ks: seq<string>): (r: seq<string>)
    ensures |r| == Min(Limit, |ks|)
    ensures Descending(r)
    ensures multiset(r) <= multiset(ks)
    ensures forall x, y :: x in r && y in multiset(ks) - multiset(r) ==> !Lex.Less(x, y)
  {
    var s := SortDescending(ks);
    assert |s| == |multiset(s)| == |ks|;
    var n := Min(Limit, |ks|);
    assert s == s[..n] + s[n..];
    assert multiset(s) == multiset(s[..n]) + multiset(s[n..]);
    forall x, y | x in s[..n] && y in multiset(ks) - multiset(s[..n]) ensures !Lex.Less(x, y) {
      assert y in multiset(s[n..]);
      var i :| 0 <= i < n && s[..n][i] == x;
      var j :| 0 <= j < |s[n..]| && s[n..][j] == y;
      assert s[i] == x && s[n + j] == y;
    }
    s[..n]
  }

  /** The first key selected is not below any key of the input. */
  lemma FirstSelectedIsHighest(ks: seq<string>, x: string)
    requires x in ks
    ensures |SelectRecent(ks)| > 0 && !Lex.Less(SelectRecent(ks)[0], x)
  {
    var r := SelectRecent(ks);
    assert |r| > 0;
    if x in r {
      HeadIsHighest(r, x);
    } else {
      assert x in multiset(ks) - multiset(r);
      assert r[0] in r;
    }
  }

  /** The selection does not depend on the order in which the store lists its keys. */
  lemma SelectionIgnoresListingOrder(ks1: seq<string>, ks2: seq<string>)
    requires multiset(ks1) == multiset(ks2)
    ensures SelectRecent(ks1) == SelectRecent(ks2)
  {
    DescendingUnique(SortDescending(ks1), SortDescending(ks2));
    assert |ks1| == |multiset(ks1)| == |ks2|;
  }
}
