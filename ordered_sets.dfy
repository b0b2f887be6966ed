/** A JavaScript `Set` of numbers, kept as its elements in insertion order
    (the order `Array.from` and iteration observe). */
module OrderedSets {

  predicate NoDuplicates(s: seq<int>)
  {
    forall i, j :: 0 <= i < j < |s| ==> s[i] != s[j]
  }

  /** `set.add(x)`: a new element goes to the end; an element already there
      keeps its place. */
  function Add(s: seq<int>, x: int): (r: seq<int>)
    ensures forall y :: y in r <==> y in s || y == x
    ensures NoDuplicates(s) ==> NoDuplicates(r)
    ensures x in s ==> r == s
    ensures x !in s ==> r == s + [x]
  {
    if x in s then s else s + [x]
  }

  /** `set.delete(x)`: every other element keeps its relative order. */
  function Delete(s: seq<int>, x: int): (r: seq<int>)
    ensures forall y :: y in r <==> y in s && y != x
    ensures NoDuplicates(s) ==> NoDuplicates(r)
    ensures x !in s ==> r == s
  {
    if s == [] then []
    else if s[0] == x then Delete(s[1..], x)
    else
      var rest := Delete(s[1..], x);
      assert NoDuplicates(s) ==> s[0] !in s[1..] && NoDuplicates(s[1..]);
      PrependFresh(s[0], rest);
      [s[0]] + rest
  }

  /** The position of `x` in `s`. */
  function IndexIn(s: seq<int>, x: int): (i: nat)
    requires x in s
    ensures i < |s| && s[i] == x && x !in s[..i]
  {
    if s[0] == x then 0 else 1 + IndexIn(s[1..], x)
  }

  /** Deleting a member of a set removes it from its place and keeps every
      other element in its relative order. */
  lemma {:induction false} DeleteKeepsOrder(s: seq<int>, x: int)
    requires NoDuplicates(s) && x in s
    ensures var i := IndexIn(s, x); Delete(s, x) == s[..i] + s[i + 1..]
  {
    if s[0] == x {
      assert x !in s[1..];
    } else {
      var t := s[1..];
      assert NoDuplicates(t) && x in t;
      DeleteKeepsOrder(t, x);
      var j := IndexIn(t, x);
      assert IndexIn(s, x) == j + 1;
      assert Delete(s, x) == [s[0]] + Delete(t, x);
      assert s[..j + 1] == [s[0]] + t[..j];
      assert s[j + 2..] == t[j + 1..];
    }
  }

  /** `set.has(x) ? set.delete(x) : set.add(x)`: flips the membership of `x`
      and of nothing else. */
  function Toggle(s: seq<int>, x: int): (r: seq<int>)
    ensures forall y :: y in r <==> (y in s <==> y != x)
    ensures NoDuplicates(s) ==> NoDuplicates(r)
  {
    if x in s then Delete(s, x) else Add(s, x)
  }

  lemma PrependFresh(y: int, t: seq<int>)
    ensures y !in t && NoDuplicates(t) ==> NoDuplicates([y] + t)
  {
  }

  /** `new Set(array)`: every element of the array, each once. The order is
      stated for arrays without repeats, by `FromArrayKeepsDistinct`. */
  function FromArray(a: seq<int>): (r: seq<int>)
    ensures NoDuplicates(r)
    ensures forall y :: y in r <==> y in a
  {
    if a == [] then [] else Add(FromArray(a[..|a| - 1]), a[|a| - 1])
  }

  /** `Array.from(new Set(a))` is `a` itself when `a` has no repeats: saving a
      set as an array and reading it back loses nothing. */
  lemma {:induction false} FromArrayKeepsDistinct(a: seq<int>)
    requires NoDuplicates(a)
    ensures FromArray(a) == a
  {
    if a != [] {
      var init := a[..|a| - 1];
      FromArrayKeepsDistinct(init);
      assert a[|a| - 1] !in init;
      assert init + [a[|a| - 1]] == a;
    }
  }

  /** Deleting the element just added restores the set exactly. */
  lemma {:induction false} DeleteUndoesAdd(s: seq<int>, x: int)
    requires x !in s
    ensures Delete(s + [x], x) == s
  {
    if s != [] {
      assert (s + [x])[1..] == s[1..] + [x];
      DeleteUndoesAdd(s[1..], x);
      assert [s[0]] + s[1..] == s;
    } else {
      assert Delete([x], x) == Delete([], x);
    }
  }
}
