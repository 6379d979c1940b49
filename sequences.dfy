/**
 * The one list-building pattern the panel uses over and over: walk a sequence
 * in order and append at most one item per element.
 */
module Sequences {
  import opened Options

  /** The items chosen by `f`, one per element that has one, in the order of `s`. */
  function FilterMap<T, U>(s: seq<T>, f: T -> Option<U>): (r: seq<U>)
    ensures |r| <= |s|
    decreases |s|
  {
    if s == [] then []
    else FilterMap(s[..|s| - 1], f) + Chosen(f(s[|s| - 1]))
  }

  /** The item an element contributes: none, or exactly one. */
  function Chosen<U>(o: Option<U>): (r: seq<U>)
    ensures |r| <= 1
  {
    match o
    case None => []
    case Some(u) => [u]
  }

  /** The positions in `s` of the elements `f` chooses an item for, ascending. */
  function Sources<T, U>(s: seq<T>, f: T -> Option<U>): seq<nat>
    decreases |s|
  {
    if s == [] then []
    else Sources(s[..|s| - 1], f) + (if f(s[|s| - 1]).Some? then [|s| - 1] else [])
  }

  /** Filtering distributes over concatenation: the walk keeps the order of its input. */
  lemma {:induction false} FilterMapAppend<T, U>(a: seq<T>, b: seq<T>, f: T -> Option<U>)
    ensures FilterMap(a + b, f) == FilterMap(a, f) + FilterMap(b, f)
    decreases |b|
  {
    if b == [] {
      assert a + b == a;
    } else {
      assert (a + b)[..|a + b| - 1] == a + b[..|b| - 1];
      FilterMapAppend(a, b[..|b| - 1], f);
    }
  }

  /**
   * The result lists exactly the items of the chosen elements, in order: the
   * k-th item comes from the k-th chosen position, positions strictly increase,
   * and no chosen element is skipped.
   */
  lemma {:induction false} FilterMapOrder<T, U>(s: seq<T>, f: T -> Option<U>)
    ensures |Sources(s, f)| == |FilterMap(s, f)|
    ensures forall k | 0 <= k < |Sources(s, f)| ::
              Sources(s, f)[k] < |s| && f(s[Sources(s, f)[k]]) == Some(FilterMap(s, f)[k])
    ensures forall k, l | 0 <= k < l < |Sources(s, f)| :: Sources(s, f)[k] < Sources(s, f)[l]
    ensures forall i | 0 <= i < |s| && f(s[i]).Some? :: i in Sources(s, f)
    decreases |s|
  {
    if s != [] {
      var init := s[..|s| - 1];
      FilterMapOrder(init, f);
      assert forall i | 0 <= i < |init| :: s[i] == init[i];
    }
  }

  /** The walk yields nothing exactly when no element is chosen. */
  lemma {:induction false} FilterMapEmpty<T, U>(s: seq<T>, f: T -> Option<U>)
    ensures FilterMap(s, f) == [] <==> forall i | 0 <= i < |s| :: f(s[i]).None?
  {
    FilterMapOrder(s, f);
    if FilterMap(s, f) != [] {
      var i := Sources(s, f)[0];
      assert f(s[i]).Some?;
    }
  }

  /** An item is in the result exactly when some element is chosen with that item. */
  lemma {:induction false} FilterMapMember<T, U>(s: seq<T>, f: T -> Option<U>, u: U)
    ensures u in FilterMap(s, f) <==> exists i | 0 <= i < |s| :: f(s[i]) == Some(u)
  {
    FilterMapOrder(s, f);
    var r := FilterMap(s, f);
    if u in r {
      var k :| 0 <= k < |r| && r[k] == u;
      assert f(s[Sources(s, f)[k]]) == Some(u);
    }
    if exists i | 0 <= i < |s| :: f(s[i]) == Some(u) {
      var i :| 0 <= i < |s| && f(s[i]) == Some(u);
      var k :| 0 <= k < |Sources(s, f)| && Sources(s, f)[k] == i;
      assert r[k] == u;
    }
  }
}
