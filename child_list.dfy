/** The three operations the display canvas performs on its JavaFX child
    list: `contains`, `add(0, node)` and `remove(node)`. A JavaFX `Node` does
    not override `equals`, so every comparison here is by identity, which is
    `==` on the element type. */
module ChildList {

  /** No node occurs twice. A JavaFX parent refuses to hold the same node
      twice, so every child list the canvas owns has this shape. */
  predicate Distinct<T(==)>(s: seq<T>) {
    forall i, j :: 0 <= i < j < |s| ==> s[i] != s[j]
  }

  /** `List.indexOf`: the position of the first occurrence of `x`, or -1. */
  function IndexOf<T(==)>(s: seq<T>, x: T): (i: int) {
    if s == [] then -1
    else if s[0] == x then 0
    else
      var j := IndexOf(s[1..], x);
      if j == -1 then -1 else j + 1
  }

  /** `List.remove(Object)`: drops the first occurrence of `x`, if any. */
  function RemoveFirst<T(==)>(s: seq<T>, x: T): (r: seq<T>) {
    if s == [] then []
    else if s[0] == x then s[1..]
    else [s[0]] + RemoveFirst(s[1..], x)
  }

  /** `IndexOf` gives -1 exactly for an absent node, and otherwise the
      position of the node with no earlier occurrence. */
  lemma {:induction false} IndexOfIsFirstOccurrence<T>(s: seq<T>, x: T)
    ensures IndexOf(s, x) == -1 <==> x !in s
    ensures x in s ==> var i := IndexOf(s, x); 0 <= i < |s| && s[i] == x && x !in s[..i]
  {
    if s != [] && s[0] != x {
      IndexOfIsFirstOccurrence(s[1..], x);
      var j := IndexOf(s[1..], x);
      if j != -1 {
        assert s[..j + 1] == [s[0]] + s[1..][..j];
      }
    }
  }

  /** Removal leaves a list without `x` as it is, and otherwise cuts out
      exactly the first occurrence, keeping the order of all the rest. */
  lemma {:induction false} RemoveFirstSplices<T>(s: seq<T>, x: T)
    ensures x !in s ==> RemoveFirst(s, x) == s
    ensures x in s ==> var i := IndexOf(s, x); 0 <= i < |s| && RemoveFirst(s, x) == s[..i] + s[i + 1..]
  {
    if s != [] && s[0] != x {
      RemoveFirstSplices(s[1..], x);
      IndexOfIsFirstOccurrence(s[1..], x);
      if x in s {
        assert x in s[1..];
        var j := IndexOf(s[1..], x);
        assert s[..j + 1] == [s[0]] + s[1..][..j];
        assert s[j + 2..] == s[1..][j + 1..];
      }
    }
  }

  /** Removing a node from a list without duplicates removes it entirely,
      keeps every other node and keeps the list free of duplicates. */
  lemma {:induction false} RemoveFirstFromDistinct<T>(s: seq<T>, x: T)
    requires Distinct(s)
    ensures Distinct(RemoveFirst(s, x))
    ensures forall y :: y in RemoveFirst(s, x) <==> y in s && y != x
  {
    if s != [] && s[0] != x {
      assert Distinct(s[1..]) by {
        forall a, b | 0 <= a < b < |s| - 1 ensures s[1..][a] != s[1..][b] {
          assert s[1..][a] == s[a + 1] && s[1..][b] == s[b + 1];
        }
      }
      RemoveFirstFromDistinct(s[1..], x);
      assert s[0] !in s[1..];
    } else if s != [] {
      assert Distinct(s[1..]) by {
        forall a, b | 0 <= a < b < |s| - 1 ensures s[1..][a] != s[1..][b] {
          assert s[1..][a] == s[a + 1] && s[1..][b] == s[b + 1];
        }
      }
      assert s[0] !in s[1..];
    }
  }
}
