/** Small facts about sequences used by the key listing and the category table. */
module Collections {

  /** No element occurs twice. */
  predicate NoDup<T(==)>(s: seq<T>)
  {
    forall i, j :: 0 <= i < j < |s| ==> s[i] != s[j]
  }

  /** The set of elements of a sequence. */
  function Elements<T>(s: seq<T>): set<T>
  {
    set x | x in s
  }

  function Min(a: int, b: int): (m: int)
    ensures m <= a && m <= b && (m == a || m == b)
  {
    if a <= b then a else b
  }

  /** A sequence without duplicates has as many distinct elements as it is long. */
  lemma {:induction false} NoDupCardinality<T>(s: seq<T>)
    requires NoDup(s)
    ensures |Elements(s)| == |s|
  {
    if s != [] {
      assert Elements(s) == Elements(s[1..]) + {s[0]};
      assert s[0] !in Elements(s[1..]);
      assert NoDup(s[1..]) by {
        forall i, j | 0 <= i < j < |s[1..]| ensures s[1..][i] != s[1..][j] {
          assert s[1..][i] == s[i + 1] && s[1..][j] == s[j + 1];
        }
      }
      NoDupCardinality(s[1..]);
    }
  }

  /** Removing one element of a sequence without duplicates removes exactly that value. */
  lemma RemoveAt<T>(s: seq<T>, p: nat)
    requires NoDup(s) && p < |s|
    ensures NoDup(s[..p] + s[p + 1..])
    ensures forall x :: x in s[..p] + s[p + 1..] <==> x in s && x != s[p]
  {
    var rest := s[..p] + s[p + 1..];
    forall i | 0 <= i < |rest| ensures rest[i] == s[if i < p then i else i + 1] {
    }
    forall i, j | 0 <= i < j < |rest| ensures rest[i] != rest[j] {
      assert rest[i] == s[if i < p then i else i + 1];
      assert rest[j] == s[if j < p then j else j + 1];
    }
    forall x | x in s && x != s[p] ensures x in rest {
      var i :| 0 <= i < |s| && s[i] == x;
      assert rest[if i < p then i else i - 1] == x;
    }
  }
}
