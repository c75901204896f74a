/** Sequences without repetition, as the abstract value of a linked list. */
module Lists {

  /** Recursive, so that the solver does not compare all pairs of elements of every list it sees. */
  predicate Distinct<T(==)>(s: seq<T>) {
    s == [] || (s[0] !in s[1..] && Distinct(s[1..]))
  }

  lemma {:induction false} DistinctMeans<T>(s: seq<T>)
    ensures Distinct(s) <==> forall i, j | 0 <= i < j < |s| :: s[i] != s[j]
  {
    if s != [] {
      DistinctMeans(s[1..]);
      if Distinct(s) {
        forall i, j | 0 <= i < j < |s| ensures s[i] != s[j] {
          assert s[j] == s[1..][j - 1];
          if i > 0 {
            assert s[i] == s[1..][i - 1];
          }
        }
      } else if s[0] in s[1..] {
        var j :| 0 <= j < |s[1..]| && s[1..][j] == s[0];
        assert s[j + 1] == s[0];
      } else {
        var i, j :| 0 <= i < j < |s[1..]| && s[1..][i] == s[1..][j];
        assert s[i + 1] == s[j + 1];
      }
    }
  }

  lemma {:induction false} DistinctParts<T>(a: seq<T>, b: seq<T>)
    requires Distinct(a + b)
    ensures Distinct(a) && Distinct(b) && forall x | x in a :: x !in b
  {
    if a == [] {
      assert a + b == b;
    } else {
      assert (a + b)[1..] == a[1..] + b;
      DistinctParts(a[1..], b);
    }
  }

  /** `s` without the elements of `gone`, in order. */
  function Minus<T(==)>(s: seq<T>, gone: set<T>): (r: seq<T>)
    ensures |r| <= |s|
    ensures (forall x | x in r :: x in s && x !in gone) && (forall x | x in s :: x !in gone ==> x in r)
  {
    if s == [] then [] else if s[0] in gone then Minus(s[1..], gone) else [s[0]] + Minus(s[1..], gone)
  }

  lemma {:induction false} MinusAppend<T>(a: seq<T>, b: seq<T>, gone: set<T>)
    ensures Minus(a + b, gone) == Minus(a, gone) + Minus(b, gone)
  {
    if a == [] {
      assert a + b == b;
    } else {
      assert (a + b)[1..] == a[1..] + b;
      MinusAppend(a[1..], b, gone);
    }
  }

  lemma {:induction false} MinusNone<T>(s: seq<T>, gone: set<T>)
    requires forall x | x in s :: x !in gone
    ensures Minus(s, gone) == s
  {
    if s != [] {
      MinusNone(s[1..], gone);
    }
  }

  lemma {:induction false} MinusTwice<T>(s: seq<T>, a: set<T>, b: set<T>)
    ensures Minus(Minus(s, a), b) == Minus(s, a + b)
  {
    if s != [] {
      MinusTwice(s[1..], a, b);
    }
  }

  lemma MinusStep<T>(s: seq<T>, x: T)
    requires s != [] && s[0] != x
    ensures Minus(s, {x}) == [s[0]] + Minus(s[1..], {x})
  {
  }

  lemma MinusFirst<T>(s: seq<T>)
    requires Distinct(s) && s != []
    ensures Minus(s, {s[0]}) == s[1..]
  {
    MinusNone(s[1..], {s[0]});
  }

  lemma CutTail<T>(s: seq<T>, i: nat)
    requires 0 < i < |s|
    ensures s[1..][i - 1] == s[i] && s[i] in s[1..]
    ensures [s[0]] + (s[1..][..i - 1] + s[1..][i..]) == s[..i] + s[i + 1..]
  {
    assert s[1..][..i - 1] == s[1..i] && s[1..][i..] == s[i + 1..];
  }

  /** Taking one element out of a list without repetition cuts it at its place. */
  lemma {:induction false} MinusOne<T>(s: seq<T>, i: nat)
    requires Distinct(s) && i < |s|
    ensures Minus(s, {s[i]}) == s[..i] + s[i + 1..]
    decreases i
  {
    if i == 0 {
      MinusFirst(s);
    } else {
      CutTail(s, i);
      MinusStep(s, s[i]);
      MinusOne(s[1..], i - 1);
    }
  }

  lemma {:induction false} MinusKeepsDistinct<T>(s: seq<T>, gone: set<T>)
    requires Distinct(s)
    ensures Distinct(Minus(s, gone))
  {
    if s != [] {
      MinusKeepsDistinct(s[1..], gone);
      var rest := Minus(s[1..], gone);
      assert ([s[0]] + rest)[1..] == rest;
    }
  }
}
