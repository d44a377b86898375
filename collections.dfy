/** Facts about sequences used throughout: distinctness, the set of elements,
    and the "append only if absent" accumulation of the generator's loops. */
module Collections {

  /** The set of elements of a sequence. */
  function Elems<T>(s: seq<T>): set<T>
  {
    set x | x in s
  }

  /** No value occurs twice. */
  predicate Distinct<T(==)>(s: seq<T>)
  {
    forall i, j :: 0 <= i < j < |s| ==> s[i] != s[j]
  }

  /** A distinct sequence has as many elements as its set. */
  lemma {:induction false} DistinctCard<T>(s: seq<T>)
    requires Distinct(s)
    ensures |Elems(s)| == |s|
  {
    if s != [] {
      var t := s[1..];
      assert Distinct(t) by {
        forall i, j | 0 <= i < j < |t| ensures t[i] != t[j] {
          assert t[i] == s[i + 1] && t[j] == s[j + 1];
        }
      }
      DistinctCard(t);
      assert Elems(s) == {s[0]} + Elems(t) by {
        forall x ensures x in Elems(s) <==> x in {s[0]} + Elems(t) {
          if x in s && x != s[0] {
            var k :| 0 <= k < |s| && s[k] == x;
            assert t[k - 1] == x;
          }
        }
      }
      forall k | 0 <= k < |t| ensures t[k] != s[0] {
        assert t[k] == s[k + 1];
      }
    }
  }

  /** A sequence never has more elements in its set than positions. */
  lemma {:induction false} ElemsCardBound<T>(s: seq<T>)
    ensures |Elems(s)| <= |s|
  {
    if s != [] {
      ElemsCardBound(s[..|s| - 1]);
      assert Elems(s) == Elems(s[..|s| - 1]) + {s[|s| - 1]} by {
        forall x | x in s ensures x in Elems(s[..|s| - 1]) + {s[|s| - 1]} {
          var k :| 0 <= k < |s| && s[k] == x;
          if k < |s| - 1 { assert s[..|s| - 1][k] == x; }
        }
      }
    }
  }

  /** Each value occurs at most once in a distinct sequence. */
  lemma {:induction false} DistinctMultiplicity<T>(s: seq<T>, x: T)
    requires Distinct(s)
    ensures multiset(s)[x] <= 1
  {
    if s != [] {
      var t := s[1..];
      assert s == [s[0]] + t;
      assert Distinct(t) by {
        forall i, j | 0 <= i < j < |t| ensures t[i] != t[j] {
          assert t[i] == s[i + 1] && t[j] == s[j + 1];
        }
      }
      DistinctMultiplicity(t, x);
      forall k | 0 <= k < |t| ensures t[k] != s[0] {
        assert t[k] == s[k + 1];
      }
    }
  }

  /** A sub-multiset of a distinct sequence is distinct. */
  lemma SubMultisetDistinct<T>(w: seq<T>, s: seq<T>)
    requires Distinct(s) && multiset(w) <= multiset(s)
    ensures Distinct(w)
  {
    forall i, j | 0 <= i < j < |w| ensures w[i] != w[j] {
      if w[i] == w[j] {
        var x := w[i];
        assert w == w[..i] + [x] + w[i + 1..j] + [x] + w[j + 1..];
        assert multiset(w)[x] >= 2;
        DistinctMultiplicity(s, x);
      }
    }
  }

  /** Reordering keeps a sequence distinct. */
  lemma PermutationDistinct<T>(r: seq<T>, s: seq<T>)
    requires Distinct(s) && multiset(r) == multiset(s)
    ensures Distinct(r)
  {
    SubMultisetDistinct(r, s);
  }

  /** Two duplicate-free sequences over the same values are permutations
      of each other. */
  lemma DistinctSameElems<T>(a: seq<T>, b: seq<T>)
    requires Distinct(a) && Distinct(b) && Elems(a) == Elems(b)
    ensures multiset(a) == multiset(b)
  {
    forall x ensures multiset(a)[x] == multiset(b)[x] {
      DistinctMultiplicity(a, x);
      DistinctMultiplicity(b, x);
      assert x in a <==> x in Elems(a);
      assert x in b <==> x in Elems(b);
      assert x in a <==> x in multiset(a);
      assert x in b <==> x in multiset(b);
    }
  }

  /** The tail of a distinct sequence is distinct and lacks the head. */
  lemma DistinctTail<T>(s: seq<T>)
    requires Distinct(s) && s != []
    ensures Distinct(s[1..]) && s[0] !in s[1..]
  {
    var t := s[1..];
    forall i, j | 0 <= i < j < |t| ensures t[i] != t[j] {
      assert t[i] == s[i + 1] && t[j] == s[j + 1];
    }
    forall k | 0 <= k < |t| ensures t[k] != s[0] {
      assert t[k] == s[k + 1];
    }
  }

  /** A new value in front of a distinct sequence keeps it distinct. */
  lemma DistinctCons<T>(x: T, s: seq<T>)
    requires Distinct(s) && x !in s
    ensures Distinct([x] + s)
  {
    var r := [x] + s;
    forall i, j | 0 <= i < j < |r| ensures r[i] != r[j] {
      assert r[j] == s[j - 1];
      if i > 0 {
        assert r[i] == s[i - 1];
      }
    }
  }

  /** The loop `for d in draws: if d not in acc: acc.append(d)`, read off the
      end of the draw sequence so that it extends one draw at a time. */
  function Accumulate<T(==)>(draws: seq<T>): (acc: seq<T>)
    ensures Distinct(acc)
    ensures Elems(acc) == Elems(draws)
    ensures |acc| <= |draws|
  {
    if draws == [] then []
    else
      var prev := Accumulate(draws[..|draws| - 1]);
      var d := draws[|draws| - 1];
      assert Elems(draws) == Elems(draws[..|draws| - 1]) + {d} by {
        forall x | x in draws ensures x in Elems(draws[..|draws| - 1]) + {d} {
          var k :| 0 <= k < |draws| && draws[k] == x;
          if k < |draws| - 1 { assert draws[..|draws| - 1][k] == x; }
        }
      }
      if d in prev then prev else prev + [d]
  }

  /** Draws that never repeat are all kept, in order. */
  lemma {:induction false} AccumulateDistinct<T>(draws: seq<T>)
    requires Distinct(draws)
    ensures Accumulate(draws) == draws
  {
    if draws != [] {
      var n := |draws| - 1;
      var front := draws[..n];
      assert Distinct(front) by {
        forall i, j | 0 <= i < j < |front| ensures front[i] != front[j] {
          assert front[i] == draws[i] && front[j] == draws[j];
        }
      }
      AccumulateDistinct(front);
      assert draws[n] !in front by {
        forall k | 0 <= k < |front| ensures front[k] != draws[n] {
          assert front[k] == draws[k];
        }
      }
      assert front + [draws[n]] == draws;
    }
  }

  /** The accumulated list has one entry per distinct draw. */
  lemma AccumulateCard<T>(draws: seq<T>)
    ensures |Accumulate(draws)| == |Elems(draws)|
  {
    DistinctCard(Accumulate(draws));
  }
}
