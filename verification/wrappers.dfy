/** Absence of a value, standing for a .NET null reference or a failed lookup, and the
    LINQ filters the core applies to sequences. */
module Wrappers {

  datatype Option<+T> = None | Some(value: T)

  /** Where(x => x != null), or Where(HasValue).Select(Value): the present values, in
      their order. */
  function Somes<T>(xs: seq<Option<T>>): seq<T>
  {
    if xs == [] then [] else (if xs[0].Some? then [xs[0].value] else []) + Somes(xs[1..])
  }

  /** No element is present. */
  predicate AllNone<T>(xs: seq<Option<T>>) {
    forall i | 0 <= i < |xs| :: xs[i].None?
  }

  /** No value is kept exactly when none is present; at most one is kept per element. */
  lemma {:induction false} SomesEmpty<T>(xs: seq<Option<T>>)
    ensures |Somes(xs)| <= |xs|
    ensures Somes(xs) == [] <==> AllNone(xs)
    decreases |xs|
  {
    if xs != [] {
      SomesEmpty(xs[1..]);
      assert forall i | 1 <= i < |xs| :: xs[i] == xs[1..][i - 1];
    }
  }

  /** A value is kept exactly when it is present. */
  lemma {:induction false} SomesMembers<T>(xs: seq<Option<T>>, x: T)
    ensures x in Somes(xs) <==> Some(x) in xs
    decreases |xs|
  {
    if xs != [] {
      SomesMembers(xs[1..], x);
      assert xs == [xs[0]] + xs[1..];
    }
  }

  /** The filter keeps order: the values of two runs are those of the first run followed
      by those of the second. */
  lemma {:induction false} SomesAppend<T>(a: seq<Option<T>>, b: seq<Option<T>>)
    ensures Somes(a + b) == Somes(a) + Somes(b)
    decreases |a|
  {
    if a == [] {
      assert a + b == b;
    } else {
      var head := if a[0].Some? then [a[0].value] else [];
      assert (a + b)[0] == a[0];
      assert (a + b)[1..] == a[1..] + b;
      SomesAppend(a[1..], b);
      calc {
        Somes(a + b);
        head + Somes(a[1..] + b);
        head + (Somes(a[1..]) + Somes(b));
        (head + Somes(a[1..])) + Somes(b);
      }
    }
  }

  /** When every element is present the filter keeps them all. */
  lemma {:induction false} SomesAllPresent<T>(xs: seq<Option<T>>, values: seq<T>)
    requires |xs| == |values|
    requires forall i | 0 <= i < |xs| :: xs[i] == Some(values[i])
    ensures Somes(xs) == values
    decreases |xs|
  {
    if xs != [] {
      SomesAllPresent(xs[1..], values[1..]);
    }
  }

  /** Where(p): the elements that satisfy p, in their order. */
  function Where<T>(xs: seq<T>, p: T -> bool): (r: seq<T>)
    ensures |r| <= |xs|
    ensures forall i | 0 <= i < |r| :: r[i] in xs && p(r[i])
    ensures forall i | 0 <= i < |xs| :: p(xs[i]) ==> xs[i] in r
  {
    if xs == [] then [] else (if p(xs[0]) then [xs[0]] else []) + Where(xs[1..], p)
  }

  /** Membership in a filtered sequence: exactly the members that pass the filter. */
  lemma WhereMembers<T>(xs: seq<T>, p: T -> bool, x: T)
    ensures x in Where(xs, p) <==> x in xs && p(x)
  {
    if x in Where(xs, p) {
      var i :| 0 <= i < |Where(xs, p)| && Where(xs, p)[i] == x;
    }
  }

  /** Where keeps order: filtering two runs is filtering each and concatenating. */
  lemma {:induction false} WhereAppend<T>(a: seq<T>, b: seq<T>, p: T -> bool)
    ensures Where(a + b, p) == Where(a, p) + Where(b, p)
    decreases |a|
  {
    if a == [] {
      assert a + b == b;
    } else {
      var head := if p(a[0]) then [a[0]] else [];
      assert (a + b)[0] == a[0];
      assert (a + b)[1..] == a[1..] + b;
      WhereAppend(a[1..], b, p);
      calc {
        Where(a + b, p);
        head + Where(a[1..] + b, p);
        head + (Where(a[1..], p) + Where(b, p));
        (head + Where(a[1..], p)) + Where(b, p);
      }
    }
  }
}
