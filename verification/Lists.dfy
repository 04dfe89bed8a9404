/** Lists of lists. */
module Lists {

  function Flatten<T>(xss: seq<seq<T>>): seq<T> {
    if xss == [] then [] else Flatten(xss[..|xss| - 1]) + xss[|xss| - 1]
  }

  function Times<T>(x: T, n: nat): seq<T> {
    if n == 0 then [] else Times(x, n - 1) + [x]
  }

  /** Each element as often as given, in place. */
  function Repeated<T>(xss: seq<T>, times: nat): seq<T> {
    if xss == [] then [] else Repeated(xss[..|xss| - 1], times) + Times(xss[|xss| - 1], times)
  }

  lemma RepeatedSnoc<T>(xss: seq<T>, x: T, times: nat)
    ensures Repeated(xss + [x], times) == Repeated(xss, times) + Times(x, times)
  {}

  lemma FlattenSnoc<T>(xss: seq<seq<T>>, xs: seq<T>)
    ensures Flatten(xss + [xs]) == Flatten(xss) + xs
  {}

  lemma {:induction false} TimesLength<T>(x: T, n: nat)
    ensures |Times(x, n)| == n && forall i | 0 <= i < n :: Times(x, n)[i] == x
  {
    if n > 0 { TimesLength(x, n - 1); }
  }

  lemma {:induction false} RepeatedLength<T>(xss: seq<T>, times: nat)
    ensures |Repeated(xss, times)| == times * |xss|
  {
    if xss != [] {
      RepeatedLength(xss[..|xss| - 1], times);
      TimesLength(xss[|xss| - 1], times);
      assert times * |xss| == times * (|xss| - 1) + times;
    }
  }

  lemma {:induction false} FlattenLength<T>(xss: seq<seq<T>>, d: nat)
    requires forall i | 0 <= i < |xss| :: |xss[i]| == d
    ensures |Flatten(xss)| == d * |xss|
  {
    if xss != [] {
      FlattenLength(xss[..|xss| - 1], d);
      assert d * |xss| == d * (|xss| - 1) + d;
    }
  }
}
