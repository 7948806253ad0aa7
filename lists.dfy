/**
 * The java.util.ArrayList operations that the menu panel relies on, as functions on
 * sequences. `remove(Object)` deletes the first equal element, `removeAll(Collection)`
 * deletes every element the collection contains. Equality is `==`, which on classes is
 * reference equality. That is ArrayList's behaviour for menu elements, whose classes do not
 * redefine `equals`; for transitions it assumes that the Transition class does not either.
 */
module Lists {

  /** `a` can be obtained from `b` by deleting elements, the rest keeping their order. */
  ghost predicate IsSubsequence<T>(a: seq<T>, b: seq<T>)
    decreases |b|
  {
    if a == [] then true
    else if b == [] then false
    else if a[|a| - 1] == b[|b| - 1] then IsSubsequence(a[..|a| - 1], b[..|b| - 1])
    else IsSubsequence(a, b[..|b| - 1])
  }

  lemma {:induction false} SubsequenceOfItself<T>(a: seq<T>)
    ensures IsSubsequence(a, a)
    decreases |a|
  {
    if a != [] {
      SubsequenceOfItself(a[..|a| - 1]);
    }
  }

  /** Appending to the longer sequence keeps a subsequence a subsequence. */
  lemma {:induction false} SubsequenceExtend<T>(a: seq<T>, b: seq<T>, y: T)
    requires IsSubsequence(a, b)
    ensures IsSubsequence(a, b + [y])
    decreases |b|, 1
  {
    var b' := b + [y];
    assert b'[..|b'| - 1] == b;
    if a != [] && a[|a| - 1] == y {
      SubsequenceDropLast(a, b);
    }
  }

  /** Dropping the last element of a subsequence keeps it a subsequence. */
  lemma {:induction false} SubsequenceDropLast<T>(a: seq<T>, b: seq<T>)
    requires a != [] && IsSubsequence(a, b)
    ensures IsSubsequence(a[..|a| - 1], b)
    decreases |b|, 0
  {
    var a', b' := a[..|a| - 1], b[..|b| - 1];
    assert b' + [b[|b| - 1]] == b;
    if a[|a| - 1] == b[|b| - 1] {
      SubsequenceExtend(a', b', b[|b| - 1]);
    } else {
      SubsequenceDropLast(a, b');
      SubsequenceExtend(a', b', b[|b| - 1]);
    }
  }

  /** Being a subsequence is transitive. */
  lemma {:induction false} SubsequenceTransitive<T>(a: seq<T>, b: seq<T>, c: seq<T>)
    requires IsSubsequence(a, b) && IsSubsequence(b, c)
    ensures IsSubsequence(a, c)
    decreases |c|
  {
    if a != [] {
      var c' := c[..|c| - 1];
      assert c' + [c[|c| - 1]] == c;
      if b[|b| - 1] == c[|c| - 1] {
        var b' := b[..|b| - 1];
        if a[|a| - 1] == b[|b| - 1] {
          SubsequenceTransitive(a[..|a| - 1], b', c');
        } else {
          SubsequenceTransitive(a, b', c');
          SubsequenceExtend(a, c', c[|c| - 1]);
        }
      } else {
        SubsequenceTransitive(a, b, c');
        SubsequenceExtend(a, c', c[|c| - 1]);
      }
    }
  }

  /** Deleting the element at one position keeps the others in their order. */
  lemma {:induction false} DeleteAtKeepsOrder<T>(s: seq<T>, i: nat)
    requires i < |s|
    ensures IsSubsequence(s[..i] + s[i + 1..], s)
    decreases |s|
  {
    var a := s[..i] + s[i + 1..];
    var s' := s[..|s| - 1];
    assert s' + [s[|s| - 1]] == s;
    if i == |s| - 1 {
      assert a == s';
      SubsequenceOfItself(s');
      SubsequenceExtend(s', s', s[|s| - 1]);
    } else {
      assert a[..|a| - 1] == s'[..i] + s'[i + 1..];
      DeleteAtKeepsOrder(s', i);
    }
  }

  /** ArrayList.indexOf: the position of the first element equal to `x`. */
  function IndexOf<T(==)>(s: seq<T>, x: T): (i: nat)
    requires x in s
    ensures i < |s| && s[i] == x && x !in s[..i]
  {
    if s[0] == x then 0
    else
      var j := IndexOf(s[1..], x);
      assert s[..1 + j] == [s[0]] + s[1..][..j];
      1 + j
  }

  /**
   * ArrayList.remove(Object): deletes the first element equal to `x`, leaving the
   * others in their order; a list that does not hold `x` is left as it is.
   */
  function RemoveFirst<T(==)>(s: seq<T>, x: T): (r: seq<T>)
    ensures x !in s ==> r == s
    ensures x in s ==> |r| == |s| - 1
    ensures multiset(r) == multiset(s) - multiset{x}
  {
    if x in s then
      var i := IndexOf(s, x);
      assert s == s[..i] + [x] + s[i + 1..];
      s[..i] + s[i + 1..]
    else
      assert multiset(s)[x] == 0;
      s
  }

  /** The elements `RemoveFirst` keeps stay in their order, and only the first `x` goes. */
  lemma RemoveFirstKeepsOrder<T>(s: seq<T>, x: T)
    ensures IsSubsequence(RemoveFirst(s, x), s)
    ensures x in s ==> exists i :: 0 <= i < |s| && s[i] == x && x !in s[..i] && RemoveFirst(s, x) == s[..i] + s[i + 1..]
  {
    if x in s {
      DeleteAtKeepsOrder(s, IndexOf(s, x));
    } else {
      SubsequenceOfItself(s);
    }
  }

  /** Removing an element just appended, and held nowhere else, gives the list back. */
  lemma RemoveFirstUndoesAppend<T>(s: seq<T>, x: T)
    requires x !in s
    ensures RemoveFirst(s + [x], x) == s
  {
    assert IndexOf(s + [x], x) == |s|;
  }

  /** `RemoveFirst` applied with each of `xs` in turn, as a loop calling ArrayList.remove does. */
  function RemoveEach<T(==)>(s: seq<T>, xs: seq<T>): (r: seq<T>)
    decreases |xs|
  {
    if xs == [] then s
    else RemoveFirst(RemoveEach(s, xs[..|xs| - 1]), xs[|xs| - 1])
  }

  lemma RemoveEachStep<T>(s: seq<T>, xs: seq<T>, x: T)
    ensures RemoveEach(s, xs + [x]) == RemoveFirst(RemoveEach(s, xs), x)
  {
    assert (xs + [x])[..|xs|] == xs;
  }

  /** Removing each of `xs` takes exactly one occurrence of each away, where there is one. */
  lemma {:induction false} RemoveEachMultiset<T>(s: seq<T>, xs: seq<T>)
    ensures multiset(RemoveEach(s, xs)) == multiset(s) - multiset(xs)
    decreases |xs|
  {
    if xs != [] {
      var init, x := xs[..|xs| - 1], xs[|xs| - 1];
      assert xs == init + [x];
      RemoveEachMultiset(s, init);
      assert multiset(xs) == multiset(init) + multiset{x};
    }
  }

  /** The elements that survive a series of removals keep their order. */
  lemma {:induction false} RemoveEachKeepsOrder<T>(s: seq<T>, xs: seq<T>)
    ensures IsSubsequence(RemoveEach(s, xs), s)
    decreases |xs|
  {
    if xs == [] {
      SubsequenceOfItself(s);
    } else {
      var rest := RemoveEach(s, xs[..|xs| - 1]);
      RemoveEachKeepsOrder(s, xs[..|xs| - 1]);
      RemoveFirstKeepsOrder(rest, xs[|xs| - 1]);
      SubsequenceTransitive(RemoveEach(s, xs), rest, s);
    }
  }

  /**
   * ArrayList.removeAll(Collection): keeps exactly the elements that `r` does not
   * contain, in their order.
   */
  function RemoveAll<T(==)>(s: seq<T>, r: seq<T>): (t: seq<T>)
    ensures forall i :: 0 <= i < |t| ==> t[i] in s && t[i] !in r
    ensures forall i :: 0 <= i < |s| && s[i] !in r ==> s[i] in t
    decreases |s|
  {
    if s == [] then []
    else
      var init, last := s[..|s| - 1], s[|s| - 1];
      assert s == init + [last];
      RemoveAll(init, r) + (if last in r then [] else [last])
  }

  /** `removeAll` keeps every occurrence of each element the argument does not contain. */
  lemma {:induction false} RemoveAllMultiset<T>(s: seq<T>, r: seq<T>)
    ensures forall x :: multiset(RemoveAll(s, r))[x] == if x in r then 0 else multiset(s)[x]
    decreases |s|
  {
    if s != [] {
      var init, last := s[..|s| - 1], s[|s| - 1];
      assert s == init + [last];
      RemoveAllMultiset(init, r);
      assert multiset(s) == multiset(init) + multiset{last};
      if last in r {
        assert RemoveAll(s, r) == RemoveAll(init, r);
      } else {
        assert RemoveAll(s, r) == RemoveAll(init, r) + [last];
      }
    }
  }

  lemma {:induction false} RemoveAllKeepsOrder<T>(s: seq<T>, r: seq<T>)
    ensures IsSubsequence(RemoveAll(s, r), s)
    decreases |s|
  {
    if s != [] {
      var init, last := s[..|s| - 1], s[|s| - 1];
      assert init + [last] == s;
      RemoveAllKeepsOrder(init, r);
      if last in r {
        assert RemoveAll(s, r) == RemoveAll(init, r);
        SubsequenceExtend(RemoveAll(init, r), init, last);
      } else {
        var t := RemoveAll(s, r);
        assert t[..|t| - 1] == RemoveAll(init, r);
      }
    }
  }
}
