/** Optional values and results with an error, shared by every module of the model. */
module Wrappers {

  /** A value that may be absent: `undefined` in the source. */
  datatype Option<+T> = None | Some(value: T)

  /** The outcome of a step that may fail with an error of type E. */
  datatype Result<+T, +E> = Success(value: T) | Failure(error: E)

  /** The first present value of `hits`: what `.find` returns on a mapped
      list, or what a loop that stops at the first decisive element yields. */
  function FirstFound<T>(hits: seq<Option<T>>): (p: Option<T>)
    ensures p.None? <==> forall k :: 0 <= k < |hits| ==> hits[k].None?
    ensures p.Some? ==> exists k :: 0 <= k < |hits| && hits[k] == p && (forall j :: 0 <= j < k ==> hits[j].None?)
    decreases |hits|
  {
    if hits == [] then None
    else if hits[0].Some? then hits[0]
    else
      var r := FirstFound(hits[1..]);
      assert forall k :: 1 <= k < |hits| ==> hits[k] == hits[1..][k - 1];
      r
  }

  /** A present value after absent ones is the first one found. */
  lemma FirstFoundAt<T>(hits: seq<Option<T>>, i: nat)
    requires i < |hits| && hits[i].Some?
    requires forall j :: 0 <= j < i ==> hits[j].None?
    ensures FirstFound(hits) == hits[i]
  {
    assert FirstFound(hits).Some?;
    var k :| 0 <= k < |hits| && hits[k] == FirstFound(hits) && (forall j :: 0 <= j < k ==> hits[j].None?);
    assert !(k < i) && !(i < k);
  }
}
