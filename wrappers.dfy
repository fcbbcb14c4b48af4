/** Optional values, results with an error and small sequence helpers shared by every module of the model. */
module Wrappers {

  datatype Option<+T> = None | Some(value: T)

  datatype Result<+R, +E> = Success(value: R) | Failure(error: E)

  /** `f` applied to every element: all the results, or `None` as soon as one is `None`. */
  function MapAll<A, B>(f: A -> Option<B>, xs: seq<A>): (r: Option<seq<B>>)
    ensures r.Some? <==> forall i :: 0 <= i < |xs| ==> f(xs[i]).Some?
    ensures r.Some? ==> |r.value| == |xs| && forall i :: 0 <= i < |xs| ==> f(xs[i]) == Some(r.value[i])
  {
    if xs == [] then Some([])
    else
      match f(xs[0])
      case None => None
      case Some(y) =>
        match MapAll(f, xs[1..])
        case None => None
        case Some(ys) => Some([y] + ys)
  }

  /** Extending the input by one element extends an all-`Some` result by that element's result. */
  lemma MapAllSnoc<A, B>(f: A -> Option<B>, xs: seq<A>, x: A)
    ensures MapAll(f, xs + [x])
            == (match MapAll(f, xs)
                case None => None
                case Some(ys) =>
                  match f(x)
                  case None => None
                  case Some(y) => Some(ys + [y]))
  {
    var zs := xs + [x];
    assert forall i :: 0 <= i < |xs| ==> zs[i] == xs[i];
    assert zs[|xs|] == x;
    if MapAll(f, xs).Some? && f(x).Some? {
      var ys := MapAll(f, xs).value;
      var zs' := ys + [f(x).value];
      assert forall i :: 0 <= i < |zs| ==> f(zs[i]) == Some(zs'[i]);
      var rs := MapAll(f, zs).value;
      assert forall i :: 0 <= i < |zs| ==> rs[i] == zs'[i] by {
        forall i | 0 <= i < |zs| ensures rs[i] == zs'[i] {
          assert f(zs[i]) == Some(rs[i]);
        }
      }
      assert rs == zs';
    } else if MapAll(f, xs).None? {
      var i :| 0 <= i < |xs| && f(xs[i]).None?;
      assert f(zs[i]).None?;
    } else {
      assert f(zs[|xs|]).None?;
    }
  }

  /** No element occurs twice, as `len(xs) == len(set(xs))` checks. */
  predicate Distinct<T(==)>(xs: seq<T>)
  {
    forall i, j :: 0 <= i < j < |xs| ==> xs[i] != xs[j]
  }

  /** Position of the first `x` in `xs`, or `|xs|` when there is none. */
  function IndexIn<T(==)>(xs: seq<T>, x: T): (k: nat)
    ensures k <= |xs|
    ensures k < |xs| <==> x in xs
    ensures k < |xs| ==> xs[k] == x
    ensures forall j :: 0 <= j < k ==> xs[j] != x
  {
    if xs == [] then 0 else if xs[0] == x then 0 else 1 + IndexIn(xs[1..], x)
  }
}
