/** src/dom-helpers.js: a linear membership search over a node list and
    the flattening of an array of arrays. */
module DomHelpers {

  /** `list` holds `item` at some index. */
  predicate Contains<T(==)>(list: seq<T>, item: T)
  {
    exists i :: 0 <= i < |list| && list[i] == item
  }

  /** `includes(item, nodeList)`: an index loop that returns as soon as it
      meets `item` (compared by identity). */
  method Includes<T(==)>(item: T, list: seq<T>) returns (found: bool)
    ensures found <==> Contains(list, item)
    ensures list == [] ==> !found
  {
    for i := 0 to |list|
      invariant forall j :: 0 <= j < i ==> list[j] != item
    {
      if item == list[i] {
        return true;
      }
    }
    return false;
  }

  /** What `flatten` computes: the inner arrays pushed one after another
      onto an accumulator, i.e. a left fold of concatenation. */
  function Concat<T>(xss: seq<seq<T>>): seq<T>
  {
    if |xss| == 0 then [] else Concat(xss[..|xss| - 1]) + xss[|xss| - 1]
  }

  /** `flatten(arrayOfArrays)`: `reduce` that pushes every element of each
      inner array onto one result array. */
  method Flatten<T>(xss: seq<seq<T>>) returns (result: seq<T>)
    ensures result == Concat(xss)
  {
    result := [];
    for k := 0 to |xss|
      invariant result == Concat(xss[..k])
    {
      assert xss[..k + 1][..k] == xss[..k];
      result := result + xss[k];
    }
    assert xss[..|xss|] == xss;
  }

  /** The sum of the lengths of the inner arrays, counted from the front. */
  function SumLengths<T>(xss: seq<seq<T>>): nat
  {
    if |xss| == 0 then 0 else |xss[0]| + SumLengths(xss[1..])
  }

  /** Flattening distributes over concatenation of the outer sequence. */
  lemma {:induction false} ConcatAppend<T>(a: seq<seq<T>>, b: seq<seq<T>>)
    ensures Concat(a + b) == Concat(a) + Concat(b)
    decreases |b|
  {
    if |b| == 0 {
      assert a + b == a;
    } else {
      var ab := a + b;
      assert ab[..|ab| - 1] == a + b[..|b| - 1];
      assert ab[|ab| - 1] == b[|b| - 1];
      ConcatAppend(a, b[..|b| - 1]);
    }
  }

  /** The front view of flattening: `xs[0] + (xs[1] + …)`; with the base
      cases, flatten of [] is [] and flatten of [a] is a. */
  lemma {:induction false} ConcatFront<T>(xss: seq<seq<T>>)
    requires |xss| > 0
    ensures Concat(xss) == xss[0] + Concat(xss[1..])
  {
    var head := [xss[0]];
    assert xss == head + xss[1..];
    ConcatAppend(head, xss[1..]);
    assert head[..0] == [];
    assert Concat(head) == Concat(head[..0]) + head[0];
  }

  /** The length of `flatten(xs)` is the sum of the inner lengths. */
  lemma {:induction false} FlattenLength<T>(xss: seq<seq<T>>)
    ensures |Concat(xss)| == SumLengths(xss)
    decreases |xss|
  {
    if |xss| > 0 {
      ConcatFront(xss);
      FlattenLength(xss[1..]);
    }
  }

  /** `x` occurs in `flatten(xs)` exactly when some inner array includes it. */
  lemma {:induction false} FlattenMembership<T>(xss: seq<seq<T>>, x: T)
    ensures Contains(Concat(xss), x) <==> exists i :: 0 <= i < |xss| && Contains(xss[i], x)
    decreases |xss|
  {
    if |xss| > 0 {
      ConcatFront(xss);
      FlattenMembership(xss[1..], x);
      var tail := Concat(xss[1..]);
      ContainsIsIn(xss[0] + tail, x);
      ContainsIsIn(xss[0], x);
      ContainsIsIn(tail, x);
      if Contains(tail, x) {
        var i :| 0 <= i < |xss[1..]| && Contains(xss[1..][i], x);
        assert Contains(xss[i + 1], x);
      }
      if exists i :: 0 <= i < |xss| && Contains(xss[i], x) {
        var i :| 0 <= i < |xss| && Contains(xss[i], x);
        if i > 0 {
          assert Contains(xss[1..][i - 1], x);
        }
      }
    }
  }

  lemma {:induction false} ContainsIsIn<T>(s: seq<T>, x: T)
    ensures Contains(s, x) <==> x in s
  {
    if x in s {
      var k :| 0 <= k < |s| && s[k] == x;
    }
  }
}
