/** Searching and ordering sequences. */
module Sequences {

  /** Index of the first `x`, or the length when there is none. */
  function IndexOf<T(==)>(s: seq<T>, x: T): nat {
    if s == [] || s[0] == x then 0 else 1 + IndexOf(s[1..], x)
  }

  lemma {:induction false} IndexOfBound<T>(s: seq<T>, x: T)
    ensures IndexOf(s, x) <= |s|
    ensures forall i :: 0 <= i < IndexOf(s, x) ==> s[i] != x
    ensures IndexOf(s, x) < |s| ==> s[IndexOf(s, x)] == x
  {
    if s != [] && s[0] != x {
      IndexOfBound(s[1..], x);
      forall i | 0 <= i < IndexOf(s, x) ensures s[i] != x {
        if i > 0 { assert s[i] == s[1..][i - 1]; }
      }
    }
  }

  lemma {:induction false} IndexOfSkips<T>(a: seq<T>, x: T, b: seq<T>)
    requires x !in a
    ensures IndexOf(a + b, x) == |a| + IndexOf(b, x)
  {
    if a == [] {
      assert a + b == b;
    } else {
      assert (a + b)[1..] == a[1..] + b;
      IndexOfSkips(a[1..], x, b);
    }
  }

  // ------------------------------------------------------- order on strings

  /** Lexicographic order of code points. */
  predicate TextLe(a: string, b: string) {
    a == [] || (b != [] && (a[0] < b[0] || (a[0] == b[0] && TextLe(a[1..], b[1..]))))
  }

  lemma {:induction false} TextLeTotal(a: string, b: string)
    ensures TextLe(a, b) || TextLe(b, a)
    ensures TextLe(a, b) && TextLe(b, a) ==> a == b
  {
    if a != [] && b != [] && a[0] == b[0] {
      TextLeTotal(a[1..], b[1..]);
      assert a == [a[0]] + a[1..] && b == [b[0]] + b[1..];
    }
  }

  lemma {:induction false} TextLeTransitive(a: string, b: string, c: string)
    requires TextLe(a, b) && TextLe(b, c)
    ensures TextLe(a, c)
  {
    if a != [] && a[0] == b[0] == c[0] {
      TextLeTransitive(a[1..], b[1..], c[1..]);
    }
  }

  /** A proper prefix, or the smaller character at the first difference. */
  lemma {:induction false} TextLeByFirstDifference(a: string, b: string)
    ensures TextLe(a, b) <==> a <= b || exists k :: DiffersBelow(a, b, k)
  {
    if a == [] || b == [] {
      assert a == [] ==> a <= b;
    } else if a[0] != b[0] {
      if a[0] < b[0] {
        assert DiffersBelow(a, b, 0);
      }
    } else {
      TextLeByFirstDifference(a[1..], b[1..]);
      assert a[1..] <= b[1..] <==> a <= b;
      if k :| DiffersBelow(a[1..], b[1..], k) {
        assert DiffersBelow(a, b, k + 1);
      }
      if k :| DiffersBelow(a, b, k) {
        assert k > 0;
        assert a[1..][..k - 1] == a[..k][1..] && b[1..][..k - 1] == b[..k][1..];
        assert DiffersBelow(a[1..], b[1..], k - 1);
      }
    }
  }

  predicate DiffersBelow(a: string, b: string, k: int) {
    0 <= k < |a| && k < |b| && a[..k] == b[..k] && a[k] < b[k]
  }

  // -------------------------------------------------- iteration in key order

  ghost predicate TotalOrder<K(!new)>(le: (K, K) -> bool) {
    && (forall a, b :: le(a, b) || le(b, a))
    && (forall a, b :: le(a, b) && le(b, a) ==> a == b)
    && (forall a, b, c :: le(a, b) && le(b, c) ==> le(a, c))
  }

  predicate IsLeast<K(!new)>(least: K, s: set<K>, le: (K, K) -> bool) {
    least in s && forall k :: k in s ==> le(least, k)
  }

  lemma {:induction false} LeastExists<K(!new)>(s: set<K>, le: (K, K) -> bool)
    requires s != {} && TotalOrder(le)
    ensures exists least :: IsLeast(least, s, le)
    decreases |s|
  {
    var x :| x in s;
    var rest := s - {x};
    if rest == {} {
      assert s == {x};
      assert IsLeast(x, s, le);
    } else {
      LeastExists(rest, le);
      var y :| IsLeast(y, rest, le);
      assert IsLeast(if le(x, y) then x else y, s, le);
    }
  }

  /** The keys of an ordered map, in the order it is iterated. */
  function InOrder<K(!new, ==)>(s: set<K>, le: (K, K) -> bool): seq<K>
    requires TotalOrder(le)
    decreases |s|
  {
    if s == {} then []
    else
      LeastExists(s, le);
      var least :| least in s && IsLeast(least, s, le);
      [least] + InOrder(s - {least}, le)
  }

  /** Every key is visited exactly once, in ascending order. */
  lemma {:induction false} InOrderVisitsOnce<K(!new)>(s: set<K>, le: (K, K) -> bool)
    requires TotalOrder(le)
    ensures forall k :: k in InOrder(s, le) <==> k in s
    ensures forall i, j :: 0 <= i < j < |InOrder(s, le)| ==> InOrder(s, le)[i] != InOrder(s, le)[j]
    ensures forall i, j :: 0 <= i < j < |InOrder(s, le)| ==> le(InOrder(s, le)[i], InOrder(s, le)[j])
    decreases |s|
  {
    if s != {} {
      LeastExists(s, le);
      var keys := InOrder(s, le);
      var least := keys[0];
      assert least in s && keys == [least] + InOrder(s - {least}, le);
      InOrderVisitsOnce(s - {least}, le);
      assert keys[1..] == InOrder(s - {least}, le);
      forall i, j | 0 <= i < j < |keys| ensures keys[i] != keys[j] && le(keys[i], keys[j]) {
        assert keys[j] == keys[1..][j - 1] && keys[j] in keys[1..];
        if i > 0 { assert keys[i] == keys[1..][i - 1]; }
      }
    }
  }
}
