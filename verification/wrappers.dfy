/** Failure-carrying datatypes shared by every module of the model.

    The modelled program reports failures by raising Python exceptions; here
    each raise becomes a `Failure` carrying the exception kind, so that an
    operation's error paths are ordinary results that contracts can talk about.
 */
module Wrappers {

  /** Python's `None` / a present value. */
  datatype Option<+T> = None | Some(value: T)

  /** The exception kinds the modelled code raises (explicitly or through a
      failed lookup, index or unpacking). */
  datatype Error =
    | AssertionFailed(reason: string)
    | KeyMissing(key: string)
    | IndexOutOfRange
    | BadUnpack
    | NotSubscriptable
    | UnboundName(name: string)
    | ValueError(reason: string)

  /** Either the value an operation returns or the exception it raises. */
  datatype Result<+T> = Success(value: T) | Failure(error: Error) {
    predicate IsFailure() {
      Failure?
    }

    function PropagateFailure<U>(): Result<U>
      requires Failure?
    {
      Failure(error)
    }

    function Extract(): T
      requires Success?
    {
      value
    }
  }

  /** Python's `xs[i]` for an integer index: negative indices count from the
      end, anything outside `-|xs| .. |xs|-1` raises IndexError. */
  function PyIndex<T>(xs: seq<T>, i: int): (r: Result<T>)
    ensures r.Success? <==> -|xs| <= i < |xs|
    ensures 0 <= i < |xs| ==> r == Success(xs[i])
    ensures -|xs| <= i < 0 ==> r == Success(xs[|xs| + i])
  {
    if 0 <= i < |xs| then Success(xs[i])
    else if -|xs| <= i < 0 then Success(xs[|xs| + i])
    else Failure(IndexOutOfRange)
  }

  /** `f` applied to each element in order; the first failure aborts the
      whole, as an exception inside a Python loop does. */
  function MapResult<T, U>(xs: seq<T>, f: T -> Result<U>): Result<seq<U>>
    decreases |xs|
  {
    if |xs| == 0 then Success([])
    else match f(xs[0])
      case Failure(e) => Failure(e)
      case Success(y) =>
        match MapResult(xs[1..], f)
        case Failure(e) => Failure(e)
        case Success(ys) => Success([y] + ys)
  }

  /** Mapping from the front agrees with mapping all but the last element
      and then the last one. */
  lemma {:induction false} MapResultSnoc<T, U>(xs: seq<T>, f: T -> Result<U>)
    requires |xs| > 0
    ensures var n := |xs| - 1;
      MapResult(xs, f) == match MapResult(xs[..n], f)
        case Failure(e) => Failure(e)
        case Success(ys) =>
          match f(xs[n])
          case Failure(e) => Failure(e)
          case Success(y) => Success(ys + [y])
    decreases |xs|
  {
    var n := |xs| - 1;
    if n == 0 {
      assert xs[..n] == [] && xs[1..] == [];
      match f(xs[0])
      case Failure(_) =>
      case Success(y) =>
        assert [y] + [] == [] + [y];
    } else {
      var tail := xs[1..];
      MapResultSnoc(tail, f);
      assert tail[..n - 1] == xs[..n][1..];
      assert tail[n - 1] == xs[n];
      assert xs[..n][0] == xs[0];
      match f(xs[0])
      case Failure(_) =>
      case Success(y) =>
        match MapResult(tail[..n - 1], f)
        case Failure(_) =>
        case Success(ys) =>
          match f(xs[n])
          case Failure(_) =>
          case Success(z) =>
            assert [y] + (ys + [z]) == ([y] + ys) + [z];
    }
  }

  /** A successful map has one result per element, each what `f` gave. */
  lemma {:induction false} MapResultElements<T, U>(xs: seq<T>, f: T -> Result<U>)
    requires MapResult(xs, f).Success?
    ensures |MapResult(xs, f).value| == |xs|
    ensures forall k :: 0 <= k < |xs| ==> f(xs[k]) == Success(MapResult(xs, f).value[k])
    decreases |xs|
  {
    if |xs| > 0 {
      MapResultElements(xs[1..], f);
      var r := MapResult(xs, f).value;
      assert forall k :: 1 <= k < |xs| ==> xs[1..][k - 1] == xs[k] && r[k] == MapResult(xs[1..], f).value[k - 1];
    }
  }
}
