/** Sequence and set facts shared by the graph builders and the writers:
    duplicate-free enumerations of sets (the model of a Python set or dict
    iterated in an unspecified order), `list.index`, flattening and sums. */
module Collections {

  /** No element occurs twice in `s`. */
  predicate NoDup<T(==)>(s: seq<T>) {
    forall i, j :: 0 <= i < j < |s| ==> s[i] != s[j]
  }

  /** `s` lists every element of `a` exactly once, in some order. */
  predicate Enumerates<T(==)>(s: seq<T>, a: set<T>) {
    && NoDup(s)
    && (forall i :: 0 <= i < |s| ==> s[i] in a)
    && (forall x :: x in a ==> x in s)
  }

  /** An enumeration of a set is exactly as long as the set is large. */
  lemma {:induction false} EnumerationSize<T>(s: seq<T>, a: set<T>)
    requires Enumerates(s, a)
    ensures |a| == |s|
    decreases |s|
  {
    if |s| == 0 {
      assert forall x :: x !in a;
      assert a == {};
    } else {
      var last := s[|s| - 1];
      var init := s[..|s| - 1];
      forall x | x in a - {last}
        ensures x in init
      {
        var k :| 0 <= k < |s| && s[k] == x;
        assert init[k] == x;
      }
      assert forall k :: 0 <= k < |init| ==> init[k] == s[k];
      EnumerationSize(init, a - {last});
    }
  }

  /** Two duplicate-free sequences with no common element concatenate to a
      duplicate-free sequence. */
  lemma NoDupAppend<T>(a: seq<T>, b: seq<T>)
    requires NoDup(a) && NoDup(b)
    requires forall x :: x in a ==> x !in b
    ensures NoDup(a + b)
  {
    forall i, j | 0 <= i < j < |a + b|
      ensures (a + b)[i] != (a + b)[j]
    {
      if i < |a| && j >= |a| {
        assert (a + b)[i] in a && (a + b)[j] == b[j - |a|];
      }
    }
  }

  /** The set of elements of a sequence. */
  function Elems<T(!new)>(s: seq<T>): (a: set<T>)
    ensures forall x :: x in a <==> x in s
  {
    set x | x in s
  }

  /** `[x for x in s if x in a]`: the elements of `s` that lie in `a`, in
      their order in `s`. */
  function Keep<T(==,!new)>(s: seq<T>, a: set<T>): (r: seq<T>)
    ensures |r| <= |s|
    ensures forall x :: x in r <==> x in s && x in a
    ensures NoDup(s) ==> NoDup(r)
  {
    if |s| == 0 then []
    else if s[0] in a then [s[0]] + Keep(s[1..], a)
    else Keep(s[1..], a)
  }

  /** Python's `list.index`: the position of the first occurrence of `x`. */
  function IndexOf<T(==)>(s: seq<T>, x: T): (i: nat)
    requires x in s
    ensures i < |s| && s[i] == x
    ensures forall j :: 0 <= j < i ==> s[j] != x
  {
    if s[0] == x then 0 else 1 + IndexOf(s[1..], x)
  }

  /** In a duplicate-free sequence `IndexOf` inverts indexing. */
  lemma IndexOfAt<T>(s: seq<T>, i: int)
    requires NoDup(s) && 0 <= i < |s|
    ensures IndexOf(s, s[i]) == i
  {
  }

  /** Flattening of a sequence of sequences, left to right. */
  function Concat<T>(ss: seq<seq<T>>): seq<T>
  {
    if |ss| == 0 then [] else ss[0] + Concat(ss[1..])
  }

  /** The elements of `Concat(ss)` are the elements of its parts. */
  lemma {:induction false} ConcatElems<T>(ss: seq<seq<T>>, x: T)
    ensures x in Concat(ss) <==> exists k :: 0 <= k < |ss| && x in ss[k]
  {
    if |ss| > 0 {
      ConcatElems(ss[1..], x);
      if x in Concat(ss[1..]) {
        var k :| 0 <= k < |ss[1..]| && x in ss[1..][k];
        assert x in ss[k + 1];
      }
      if exists k :: 0 <= k < |ss| && x in ss[k] {
        var k :| 0 <= k < |ss| && x in ss[k];
        if k > 0 {
          assert x in ss[1..][k - 1];
        }
      }
    }
  }

  /** The sum of a sequence of integers. */
  function Sum(s: seq<int>): int
  {
    if |s| == 0 then 0 else s[0] + Sum(s[1..])
  }

  /** Sum distributes over concatenation. */
  lemma {:induction false} SumAppend(a: seq<int>, b: seq<int>)
    ensures Sum(a + b) == Sum(a) + Sum(b)
  {
    if |a| > 0 {
      assert (a + b)[0] == a[0];
      assert (a + b)[1..] == a[1..] + b;
      SumAppend(a[1..], b);
    } else {
      assert a + b == b;
    }
  }

  /** The lengths of the parts add up to the length of the flattening. */
  lemma {:induction false} ConcatLength<T>(ss: seq<seq<T>>)
    ensures |Concat(ss)| == Sum(seq(|ss|, k requires 0 <= k < |ss| => |ss[k]|))
  {
    if |ss| > 0 {
      ConcatLength(ss[1..]);
      var lens := seq(|ss|, k requires 0 <= k < |ss| => |ss[k]|);
      assert lens[1..] == seq(|ss[1..]|, k requires 0 <= k < |ss[1..]| => |ss[1..][k]|);
    }
  }

  /** A set that is the image of `s` under a function injective on `s` is
      as large as `s`. */
  lemma {:induction false} InjectiveImageSize<A, B>(s: set<A>, image: set<B>, f: A -> B)
    requires forall x, y :: x in s && y in s && f(x) == f(y) ==> x == y
    requires forall x :: x in s ==> f(x) in image
    requires forall y :: y in image ==> exists x :: x in s && f(x) == y
    ensures |image| == |s|
    decreases |s|
  {
    if s == {} {
      assert forall y :: y !in image;
      assert image == {};
    } else {
      var x :| x in s;
      var rest := s - {x};
      var restImage := image - {f(x)};
      forall y | y in restImage
        ensures exists z :: z in rest && f(z) == y
      {
        var z :| z in s && f(z) == y;
        assert z != x;
      }
      InjectiveImageSize(rest, restImage, f);
    }
  }
}
