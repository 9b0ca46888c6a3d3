/** Sequence operations the Ruby code borrows from its core library: `flatten` and `uniq`. */
module Seqs {

  /** True when no element occurs twice. */
  predicate NoDup<T(==)>(s: seq<T>) {
    forall i, j :: 0 <= i < j < |s| ==> s[i] != s[j]
  }

  /** One-level `Array#flatten` of a list of lists: their concatenation in order. */
  function Flatten<T(!new)>(xss: seq<seq<T>>): (r: seq<T>)
    ensures forall x :: x in r <==> exists k :: 0 <= k < |xss| && x in xss[k]
  {
    if xss == [] then []
    else
      var front := Flatten(xss[..|xss| - 1]);
      assert forall k :: 0 <= k < |xss| - 1 ==> xss[..|xss| - 1][k] == xss[k];
      front + xss[|xss| - 1]
  }

  /** Flattening a concatenation flattens the parts in turn, and one list flattens to itself: the lists' order is kept. */
  lemma {:induction false} FlattenAppend<T(!new)>(a: seq<seq<T>>, b: seq<seq<T>>)
    ensures Flatten(a + b) == Flatten(a) + Flatten(b)
    ensures Flatten([b]) == b
    decreases |b|
  {
    assert [b][..0] == [];
    if b != [] {
      var front := b[..|b| - 1];
      assert (a + b)[..|a + b| - 1] == a + front;
      FlattenAppend(a, front);
      AppendAssociative(Flatten(a), Flatten(front), b[|b| - 1]);
    } else {
      assert a + b == a;
    }
  }

  /** `Array#uniq`: the first occurrence of every element, in the order of those occurrences. */
  function Dedup<T(==,!new)>(s: seq<T>): (r: seq<T>)
    ensures NoDup(r)
    ensures forall x :: x in r <==> x in s
    ensures |r| <= |s|
  {
    if s == [] then []
    else
      var front := Dedup(s[..|s| - 1]);
      assert forall x :: x in s[..|s| - 1] ==> x in s;
      assert forall x :: x in s ==> x in s[..|s| - 1] || x == s[|s| - 1];
      if s[|s| - 1] in front then front else front + [s[|s| - 1]]
  }

  /** The position of the first occurrence of `x` in `s`. */
  function FirstIndex<T(==)>(s: seq<T>, x: T): (i: nat)
    requires x in s
    ensures i < |s| && s[i] == x && x !in s[..i]
  {
    if s[0] == x then 0
    else
      var i := 1 + FirstIndex(s[1..], x);
      assert s[..i] == [s[0]] + s[1..][..i - 1];
      i
  }

  lemma {:induction false} FirstIndexOfPrefix<T>(s: seq<T>, n: nat, x: T)
    requires n <= |s| && x in s[..n]
    ensures FirstIndex(s, x) == FirstIndex(s[..n], x)
  {
    var i := FirstIndex(s[..n], x);
    assert s[..n][..i] == s[..i];
  }

  /**
   * Dedup keeps first occurrences in order: of two elements of `Dedup(s)`, the
   * earlier one first occurs earlier in `s`.
   */
  lemma {:induction false} DedupFollowsFirstOccurrence<T(!new)>(s: seq<T>, i: nat, j: nat)
    requires i < j < |Dedup(s)|
    ensures Dedup(s)[i] in s && Dedup(s)[j] in s
    ensures FirstIndex(s, Dedup(s)[i]) < FirstIndex(s, Dedup(s)[j])
    decreases |s|
  {
    var front := s[..|s| - 1];
    var last := s[|s| - 1];
    var d := Dedup(front);
    assert Dedup(s) == if last in d then d else d + [last];
    var x, y := Dedup(s)[i], Dedup(s)[j];
    assert x == d[i] && x in front;
    FirstIndexOfPrefix(s, |s| - 1, x);
    if j < |d| {
      assert y == d[j] && y in front;
      DedupFollowsFirstOccurrence(front, i, j);
      FirstIndexOfPrefix(s, |s| - 1, y);
    } else {
      assert y == last && last !in front;
      assert FirstIndex(s, x) < |s| - 1;
      assert FirstIndex(s, y) == |s| - 1;
    }
  }

  /** A list without repetitions is left as it is by Dedup. */
  lemma {:induction false} DedupOfNoDup<T(!new)>(s: seq<T>)
    requires NoDup(s)
    ensures Dedup(s) == s
  {
    if s != [] {
      var front := s[..|s| - 1];
      assert NoDup(front);
      DedupOfNoDup(front);
      assert s[|s| - 1] !in front;
      assert front + [s[|s| - 1]] == s;
    }
  }

  /** `xs.select { |x| !acc.include?(x) }` */
  function Without<T(==,!new)>(s: seq<T>, excluded: seq<T>): (r: seq<T>)
    ensures forall x :: x in r <==> x in s && x !in excluded
    ensures |r| <= |s|
  {
    if s == [] then []
    else
      var front := Without(s[..|s| - 1], excluded);
      assert forall x :: x in s ==> x in s[..|s| - 1] || x == s[|s| - 1];
      if s[|s| - 1] in excluded then front else front + [s[|s| - 1]]
  }

  lemma AppendAssociative<T>(a: seq<T>, b: seq<T>, c: seq<T>)
    ensures (a + b) + c == a + (b + c)
  {
  }

  /** Appending one element to the input of `Dedup(Without(_, excluded))` adds it at the end, unless it is excluded or already there. */
  lemma DedupWithoutStep<T(!new)>(s: seq<T>, x: T, excluded: seq<T>)
    ensures Dedup(Without(s + [x], excluded)) ==
              if x in excluded || x in Dedup(Without(s, excluded)) then Dedup(Without(s, excluded))
              else Dedup(Without(s, excluded)) + [x]
  {
    assert (s + [x])[..|s + [x]| - 1] == s;
    if x !in excluded {
      var w := Without(s, excluded);
      assert Without(s + [x], excluded) == w + [x];
      assert (w + [x])[..|w + [x]| - 1] == w;
    }
  }

  /** Two lists without repeats and without common elements make a list without repeats. */
  lemma NoDupAppend<T>(a: seq<T>, b: seq<T>)
    requires NoDup(b)
    requires forall x :: x in b ==> x !in a
    ensures NoDup(a) ==> NoDup(a + b)
  {
    forall i, j | NoDup(a) && 0 <= i < j < |a + b|
      ensures (a + b)[i] != (a + b)[j]
    {
      if i < |a| && j >= |a| {
        assert (a + b)[j] in b;
      }
    }
  }
}
