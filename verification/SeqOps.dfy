/** Order-preserving operations on sequences, shared by the intrusive object lists. */
module SeqOps {

  ghost predicate Distinct<T>(s: seq<T>) {
    forall i, j :: 0 <= i < j < |s| ==> s[i] != s[j]
  }

  ghost function Elems<T>(s: seq<T>): set<T> {
    set x | x in s
  }

  ghost function RemoveAt<T>(s: seq<T>, k: nat): (r: seq<T>)
    requires k < |s|
  {
    seq(|s| - 1, i requires 0 <= i < |s| - 1 => if i < k then s[i] else s[i + 1])
  }

  /** s without the elements of gone, in the order of s. */
  ghost function Without<T>(s: seq<T>, gone: set<T>): seq<T> {
    if s == [] then []
    else if s[0] in gone then Without(s[1..], gone)
    else [s[0]] + Without(s[1..], gone)
  }

  ghost function Reverse<T>(s: seq<T>): seq<T> {
    if s == [] then [] else Reverse(s[1..]) + [s[0]]
  }

  lemma {:induction false} WithoutElems<T>(s: seq<T>, gone: set<T>)
    ensures forall x :: x in Without(s, gone) <==> x in s && x !in gone
    ensures Elems(Without(s, gone)) == Elems(s) - gone
  {
    if s != [] {
      WithoutElems(s[1..], gone);
      assert s == [s[0]] + s[1..];
      assert Elems(s) == {s[0]} + Elems(s[1..]);
      if s[0] !in gone {
        assert Elems([s[0]] + Without(s[1..], gone)) == {s[0]} + Elems(Without(s[1..], gone));
      }
    }
  }

  lemma {:induction false} WithoutDistinct<T>(s: seq<T>, gone: set<T>)
    requires Distinct(s)
    ensures Distinct(Without(s, gone))
  {
    if s != [] {
      WithoutDistinct(s[1..], gone);
      WithoutElems(s[1..], gone);
      assert s[0] !in s[1..];
    }
  }

  lemma {:induction false} WithoutNothing<T>(s: seq<T>, gone: set<T>)
    requires forall x :: x in s ==> x !in gone
    ensures Without(s, gone) == s
  {
    if s != [] {
      WithoutNothing(s[1..], gone);
    }
  }

  /** Marking one more element as gone removes exactly its one occurrence. */
  lemma {:induction false} WithoutStep<T>(s: seq<T>, gone: set<T>, k: nat)
    requires Distinct(s) && k < |Without(s, gone)|
    ensures Without(s, gone + {Without(s, gone)[k]}) == RemoveAt(Without(s, gone), k)
  {
    var w := Without(s, gone);
    var x := w[k];
    WithoutElems(s, gone);
    assert x in w;
    if s[0] in gone {
      WithoutStep(s[1..], gone, k);
    } else if k == 0 {
      assert x == s[0] && x !in s[1..];
      WithoutSame(s[1..], gone, x);
      assert w[1..] == Without(s[1..], gone);
    } else {
      WithoutElems(s[1..], gone);
      assert w[1..][k - 1] == x;
      WithoutStep(s[1..], gone, k - 1);
      assert RemoveAt(w, k) == [w[0]] + RemoveAt(w[1..], k - 1);
    }
  }

  lemma RemoveAtElems<T>(s: seq<T>, k: nat)
    requires Distinct(s) && k < |s|
    ensures Distinct(RemoveAt(s, k))
    ensures forall x :: x in RemoveAt(s, k) <==> x in s && x != s[k]
  {
    forall x | x in s && x != s[k]
      ensures x in RemoveAt(s, k)
    {
      var i :| 0 <= i < |s| && s[i] == x;
      assert RemoveAt(s, k)[if i < k then i else i - 1] == x;
    }
  }

  lemma {:induction false} WithoutSame<T>(s: seq<T>, gone: set<T>, x: T)
    requires x !in s
    ensures Without(s, gone + {x}) == Without(s, gone)
  {
    if s != [] {
      WithoutSame(s[1..], gone, x);
    }
  }

  lemma WithoutGone<T>(s: seq<T>, gone: set<T>, x: T)
    requires x in s ==> x in gone
    ensures Without(s, gone + {x}) == Without(s, gone)
  {
    if x in gone {
      assert gone + {x} == gone;
    } else {
      WithoutSame(s, gone, x);
    }
  }

  lemma {:induction false} WithoutConcat<T>(s: seq<T>, t: seq<T>, gone: set<T>)
    ensures Without(s + t, gone) == Without(s, gone) + Without(t, gone)
  {
    if s == [] {
      assert s + t == t;
    } else {
      WithoutConcat(s[1..], t, gone);
      assert (s + t)[1..] == s[1..] + t;
    }
  }

  lemma {:induction false} WithoutTwice<T>(s: seq<T>, a: set<T>, b: set<T>)
    ensures Without(Without(s, a), b) == Without(s, a + b)
  {
    if s != [] {
      WithoutTwice(s[1..], a, b);
      if s[0] !in a {
        assert ([s[0]] + Without(s[1..], a))[1..] == Without(s[1..], a);
      }
    }
  }

  /** Moving a cursor over s from n to n + 1. */
  lemma CursorStep<T>(s: seq<T>, n: nat)
    requires n < |s|
    ensures s[n..] == [s[n]] + s[n + 1..] && s[n..][1..] == s[n + 1..]
    ensures s[..n + 1] == s[..n] + [s[n]] && s[..n + 1][..n] == s[..n]
    ensures Elems(s[..n + 1]) == Elems(s[..n]) + {s[n]}
  {
    assert s[..n + 1] == s[..n] + [s[n]];
  }

  lemma {:induction false} ReverseElems<T>(s: seq<T>)
    ensures |Reverse(s)| == |s| && Elems(Reverse(s)) == Elems(s)
  {
    if s != [] {
      ReverseElems(s[1..]);
      assert s == [s[0]] + s[1..];
      assert Elems(s) == {s[0]} + Elems(s[1..]);
      assert Elems(Reverse(s[1..]) + [s[0]]) == Elems(Reverse(s[1..])) + {s[0]};
    }
  }

  lemma {:induction false} ReverseDistinct<T>(s: seq<T>)
    requires Distinct(s)
    ensures Distinct(Reverse(s))
  {
    if s != [] {
      ReverseDistinct(s[1..]);
      ReverseElems(s[1..]);
      assert s[0] !in s[1..] && s[0] !in Elems(Reverse(s[1..]));
    }
  }

  lemma {:induction false} ReverseSnoc<T>(s: seq<T>, x: T)
    ensures Reverse(s + [x]) == [x] + Reverse(s)
  {
    if s != [] {
      ReverseSnoc(s[1..], x);
      assert (s + [x])[1..] == s[1..] + [x];
    }
  }

  lemma {:induction false} ReverseWithout<T>(s: seq<T>, gone: set<T>)
    ensures Without(Reverse(s), gone) == Reverse(Without(s, gone))
  {
    if s != [] {
      ReverseWithout(s[1..], gone);
      WithoutConcat(Reverse(s[1..]), [s[0]], gone);
      if s[0] !in gone {
        assert ([s[0]] + Without(s[1..], gone))[1..] == Without(s[1..], gone);
      }
    }
  }

  lemma {:induction false} ReverseHead<T>(s: seq<T>)
    requires s != []
    ensures Reverse(s) != [] && Reverse(s)[0] == s[|s| - 1]
  {
    if |s| > 1 {
      ReverseHead(s[1..]);
    }
  }

  /** Only the elements of s matter in what is taken away from it. */
  lemma {:induction false} WithoutSameOn<T>(s: seq<T>, a: set<T>, b: set<T>)
    requires Elems(s) * a == Elems(s) * b
    ensures Without(s, a) == Without(s, b)
  {
    if s != [] {
      assert s[0] in Elems(s);
      assert s[0] in a <==> s[0] in Elems(s) * a;
      assert s[0] in b <==> s[0] in Elems(s) * b;
      assert Elems(s) == {s[0]} + Elems(s[1..]) by { assert s == [s[0]] + s[1..]; }
      assert Elems(s[1..]) * a == Elems(s[1..]) * (Elems(s) * a);
      assert Elems(s[1..]) * b == Elems(s[1..]) * (Elems(s) * b);
      WithoutSameOn(s[1..], a, b);
    }
  }

  lemma {:induction false} ElemsSize<T>(s: seq<T>)
    requires Distinct(s)
    ensures |Elems(s)| == |s|
  {
    if s != [] {
      ElemsSize(s[1..]);
      assert Elems(s) == {s[0]} + Elems(s[1..]) by { assert s == [s[0]] + s[1..]; }
      assert s[0] !in s[1..];
    }
  }
}
