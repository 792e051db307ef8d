/** The optional value used wherever the Python code returns nothing or raises a caught error. */
module Wrappers {
  datatype Option<+T> = None | Some(value: T)

  /** The values present, in order. */
  function Present<T>(es: seq<Option<T>>): (r: seq<T>)
    ensures |r| <= |es|
  {
    if es == [] then []
    else
      var last := es[|es| - 1];
      Present(es[..|es| - 1]) + (if last.Some? then [last.value] else [])
  }

  /** Every value present comes from some position. */
  lemma {:induction false} PresentFrom<T>(es: seq<Option<T>>, t: T)
    requires t in Present(es)
    ensures exists i :: 0 <= i < |es| && es[i] == Some(t)
  {
    var n := |es| - 1;
    if t in Present(es[..n]) {
      PresentFrom(es[..n], t);
      var i :| 0 <= i < n && es[..n][i] == Some(t);
      assert es[i] == Some(t);
    } else {
      assert es[n] == Some(t);
    }
  }

  /** The parts of a sequence contribute independently of each other. */
  lemma {:induction false} PresentAppend<T>(a: seq<Option<T>>, b: seq<Option<T>>)
    ensures Present(a + b) == Present(a) + Present(b)
  {
    if b == [] {
      assert a + b == a;
    } else {
      var n := |b| - 1;
      PresentAppend(a, b[..n]);
      assert (a + b)[..|a + b| - 1] == a + b[..n];
      assert (a + b)[|a + b| - 1] == b[n];
    }
  }

  /** `f` applied to each element, in order. */
  function Mapped<A, B>(xs: seq<A>, f: A -> B): (ys: seq<B>)
    ensures |ys| == |xs|
  {
    if xs == [] then [] else Mapped(xs[..|xs| - 1], f) + [f(xs[|xs| - 1])]
  }

  lemma {:induction false} MappedAt<A, B>(xs: seq<A>, f: A -> B, i: nat)
    requires i < |xs|
    ensures Mapped(xs, f)[i] == f(xs[i])
  {
    var n := |xs| - 1;
    var prefix := xs[..n];
    assert Mapped(xs, f) == Mapped(prefix, f) + [f(xs[n])];
    if i < n {
      MappedAt(prefix, f, i);
      assert prefix[i] == xs[i];
    }
  }

  lemma MappedNext<A, B>(xs: seq<A>, f: A -> B, i: nat)
    requires i < |xs|
    ensures Mapped(xs[..i + 1], f) == Mapped(xs[..i], f) + [f(xs[i])]
  {
    assert xs[..i + 1][..i] == xs[..i];
  }

  /** When every position holds a value, those values are all present, in place. */
  lemma {:induction false} PresentAll<T>(es: seq<Option<T>>)
    requires forall i :: 0 <= i < |es| ==> es[i].Some?
    ensures |Present(es)| == |es|
    ensures forall i :: 0 <= i < |es| ==> Present(es)[i] == es[i].value
  {
    if es != [] {
      var n := |es| - 1;
      var prefix := es[..n];
      assert forall i :: 0 <= i < n ==> prefix[i] == es[i];
      PresentAll(prefix);
      assert Present(es) == Present(prefix) + [es[n].value];
    }
  }
}
