/** The optional-value type used for lookups that may find nothing. */
module Wrappers {

  datatype Option<+T> = None | Some(value: T) {

    /** The value held, or `default` when there is none. */
    function GetOr(default: T): T {
      match this
      case Some(v) => v
      case None => default
    }
  }
}

/**
 * The values present in a sequence of optional values, in order: the shape
 * of a loop that appends for some steps and skips the others.
 */
module Collect {
  import opened Wrappers

  function AsSeq<T>(o: Option<T>): seq<T> {
    match o
    case Some(x) => [x]
    case None => []
  }

  /** The present values of `opts`, in order. */
  function Flatten<T>(opts: seq<Option<T>>): (r: seq<T>)
    ensures |r| <= |opts|
  {
    if |opts| == 0 then [] else Flatten(opts[..|opts| - 1]) + AsSeq(opts[|opts| - 1])
  }

  /** The positions of the present values of `opts`, in order. */
  function Present<T>(opts: seq<Option<T>>): (ks: seq<nat>)
    ensures forall j :: 0 <= j < |ks| ==> ks[j] < |opts|
  {
    if |opts| == 0 then []
    else Present(opts[..|opts| - 1]) + (if opts[|opts| - 1].Some? then [|opts| - 1] else [])
  }

  /** Flattening one more step appends that step's value, if any. */
  lemma FlattenStep<T>(opts: seq<Option<T>>, o: Option<T>)
    ensures Flatten(opts + [o]) == Flatten(opts) + AsSeq(o)
  {
    assert (opts + [o])[..|opts|] == opts;
  }

  /** The j-th value is the one at the j-th present position. */
  lemma {:induction false} FlattenSound<T>(opts: seq<Option<T>>)
    ensures |Present(opts)| == |Flatten(opts)|
    ensures forall j :: 0 <= j < |Flatten(opts)| ==> opts[Present(opts)[j]] == Some(Flatten(opts)[j])
  {
    if |opts| > 0 {
      var n := |opts|;
      var earlier := opts[..n - 1];
      FlattenSound(earlier);
      var r, ks := Flatten(opts), Present(opts);
      forall j | 0 <= j < |r|
        ensures opts[ks[j]] == Some(r[j])
      {
        if j < |Flatten(earlier)| {
          assert ks[j] == Present(earlier)[j] && r[j] == Flatten(earlier)[j];
          assert earlier[ks[j]] == opts[ks[j]];
        }
      }
    }
  }

  /** Present positions strictly increase, so values keep their order. */
  lemma {:induction false} PresentIncreasing<T>(opts: seq<Option<T>>, i: nat, j: nat)
    requires i < j < |Present(opts)|
    ensures Present(opts)[i] < Present(opts)[j]
  {
    var earlier := Present(opts[..|opts| - 1]);
    if j < |earlier| {
      PresentIncreasing(opts[..|opts| - 1], i, j);
    }
  }

  /** Every present value is kept, at a present position. */
  lemma {:induction false} FlattenComplete<T>(opts: seq<Option<T>>, k: nat)
    requires k < |opts| && opts[k].Some?
    ensures k in Present(opts)
    ensures opts[k].value in Flatten(opts)
  {
    var n := |opts|;
    if k < n - 1 {
      assert opts[..n - 1][k] == opts[k];
      FlattenComplete(opts[..n - 1], k);
    }
  }

  /** Flattening a prefix gives a prefix. */
  lemma {:induction false} FlattenPrefix<T>(opts: seq<Option<T>>, m: nat)
    requires m <= |opts|
    ensures Flatten(opts[..m]) <= Flatten(opts)
  {
    if m < |opts| {
      var n := |opts|;
      assert opts[..n - 1][..m] == opts[..m];
      FlattenPrefix(opts[..n - 1], m);
    } else {
      assert opts[..m] == opts;
    }
  }
}
