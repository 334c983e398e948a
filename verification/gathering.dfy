/** Concatenating per-page lists in a chosen page order, and what does not
    depend on that order. */
module Gathering {

  /** The lists of the pages in `order`, concatenated in that order. */
  function Gather<T>(pages: nat -> seq<T>, order: seq<nat>): seq<T> {
    if order == [] then [] else Gather(pages, order[..|order| - 1]) + pages(order[|order| - 1])
  }

  /** Gathering two runs of pages is gathering their concatenation. */
  lemma {:induction false} GatherAppend<T>(pages: nat -> seq<T>, a: seq<nat>, b: seq<nat>)
    ensures Gather(pages, a + b) == Gather(pages, a) + Gather(pages, b)
  {
    if b == [] {
      assert a + b == a;
    } else {
      var b', last := b[..|b| - 1], b[|b| - 1];
      var ab := a + b;
      assert ab[..|ab| - 1] == a + b';
      assert ab[|ab| - 1] == last;
      GatherAppend(pages, a, b');
    }
  }

  /** A position of `x` in `o`. */
  function IndexOf(o: seq<nat>, x: nat): (i: nat)
    requires x in multiset(o)
    ensures i < |o| && o[i] == x
  {
    if o[0] == x then 0
    else
      assert o == [o[0]] + o[1..];
      1 + IndexOf(o[1..], x)
  }

  /** Taking out the element at `i` takes one copy of it out of the
      multiset. */
  lemma RemoveAt(o: seq<nat>, i: nat)
    requires i < |o|
    ensures multiset(o[..i] + o[i + 1..]) == multiset(o) - multiset{o[i]}
  {
    assert o == o[..i] + [o[i]] + o[i + 1..];
  }

  /** Any two orders of the same pages gather the same elements, each as
      often. */
  lemma {:induction false} GatherPermutation<T>(pages: nat -> seq<T>, o1: seq<nat>, o2: seq<nat>)
    requires multiset(o1) == multiset(o2)
    ensures multiset(Gather(pages, o1)) == multiset(Gather(pages, o2))
    decreases |o1|
  {
    if o1 != [] {
      var n := |o1| - 1;
      var x := o1[n];
      var i := IndexOf(o2, x);
      var rest := o2[..i] + o2[i + 1..];
      RemoveAt(o1, n);
      RemoveAt(o2, i);
      assert o1[..n] + o1[n + 1..] == o1[..n];
      GatherPermutation(pages, o1[..n], rest);
      GatherShift(pages, o2, i);
      assert Gather(pages, o1) == Gather(pages, o1[..n]) + pages(x);
    }
  }

  /** Gathering with the page at `i` moved to the end changes only the order
      of the elements. */
  lemma GatherShift<T>(pages: nat -> seq<T>, o: seq<nat>, i: nat)
    requires i < |o|
    ensures multiset(Gather(pages, o))
         == multiset(Gather(pages, o[..i] + o[i + 1..])) + multiset(pages(o[i]))
  {
    var before, after := o[..i], o[i + 1..];
    assert o == before + [o[i]] + after;
    var gb, ga, gx := Gather(pages, before), Gather(pages, after), pages(o[i]);
    assert Gather(pages, [o[i]]) == gx by {
      assert [o[i]][..0] == [];
    }
    GatherAppend(pages, before, [o[i]]);
    GatherAppend(pages, before + [o[i]], after);
    assert Gather(pages, o) == gb + gx + ga;
    GatherAppend(pages, before, after);
    assert Gather(pages, before + after) == gb + ga;
  }

  /** The list of the k-th page in `order` sits, whole, right after the lists
      of the pages before it. */
  lemma GatherContiguous<T>(pages: nat -> seq<T>, order: seq<nat>, k: nat)
    requires k < |order|
    ensures var start := |Gather(pages, order[..k])|;
      start + |pages(order[k])| <= |Gather(pages, order)|
      && Gather(pages, order)[start..start + |pages(order[k])|] == pages(order[k])
  {
    var prefix := order[..k + 1];
    assert prefix[..k] == order[..k];
    assert order == prefix + order[k + 1..];
    GatherAppend(pages, prefix, order[k + 1..]);
  }
}
