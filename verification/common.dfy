/** Failure-carrying wrappers shared by every module of the model. */
module Common {

  /** A value that may be absent: JavaScript's `undefined`/`null` for an optional field. */
  datatype Option<+T> = None | Some(value: T) {
    function GetOr(default: T): T {
      match this
      case Some(v) => v
      case None => default
    }
  }

  /** The outcome of a step that may throw: `Failure` carries the exception's message. */
  datatype Result<+T> = Success(value: T) | Failure(error: string)

  /** Which entries of `os` are present, position by position. */
  function Present<T>(os: seq<Option<T>>): (bs: seq<bool>)
    ensures |bs| == |os| && forall i :: 0 <= i < |os| ==> bs[i] == os[i].Some?
  {
    seq(|os|, i requires 0 <= i < |os| => os[i].Some?)
  }

  /**
   * The present values of `os`, in order: a loop that pushes only non-null
   * results keeps one value per present position, in increasing position order.
   */
  function Somes<T>(os: seq<Option<T>>): (r: seq<T>)
    ensures |r| <= |os|
    ensures forall j :: 0 <= j < |r| ==> Some(r[j]) in os
    ensures forall k :: 0 <= k < |os| && os[k].Some? ==> os[k].value in r
    ensures (forall k :: 0 <= k < |os| ==> os[k].Some?) ==> |r| == |os|
    ensures var ps := Positions(Present(os));
      |r| == |ps| && forall k :: 0 <= k < |ps| ==> r[k] == os[ps[k]].value
  {
    if |os| == 0 then []
    else
      var n := |os| - 1;
      var bs := Present(os);
      assert bs[..n] == Present(os[..n]);
      assert Positions(bs) == if bs[n] then Positions(bs[..n]) + [n] else Positions(bs[..n]);
      assert forall i :: 0 <= i < n ==> os[..n][i] == os[i];
      var rest := Somes(os[..n]);
      var r := match os[n] case Some(v) => rest + [v] case None => rest;
      PositionalFacts(os, r);
      r
  }

  /** What follows for membership and length once `r` holds the present values at their positions. */
  lemma PositionalFacts<T>(os: seq<Option<T>>, r: seq<T>)
    requires var ps := Positions(Present(os));
      |r| == |ps| && forall k :: 0 <= k < |ps| ==> r[k] == os[ps[k]].value
    ensures |r| <= |os|
    ensures forall j :: 0 <= j < |r| ==> Some(r[j]) in os
    ensures forall k :: 0 <= k < |os| && os[k].Some? ==> os[k].value in r
    ensures (forall k :: 0 <= k < |os| ==> os[k].Some?) ==> |r| == |os|
  {
    var ps := Positions(Present(os));
    PositionsLength(Present(os));
    forall j | 0 <= j < |r| ensures Some(r[j]) in os {
      assert os[ps[j]] == Some(r[j]);
    }
    forall k | 0 <= k < |os| && os[k].Some? ensures os[k].value in r {
      var j :| 0 <= j < |ps| && ps[j] == k;
      assert r[j] == os[k].value;
    }
  }

  /**
   * The indices at which `bs` holds, in increasing order: the positions a
   * loop over `bs` visits and keeps.
   */
  function Positions(bs: seq<bool>): (ps: seq<nat>)
    ensures forall k :: 0 <= k < |ps| ==> ps[k] < |bs| && bs[ps[k]]
    ensures forall k, l :: 0 <= k < l < |ps| ==> ps[k] < ps[l]
    ensures forall i :: 0 <= i < |bs| && bs[i] ==> i in ps
  {
    if |bs| == 0 then []
    else
      var n := |bs| - 1;
      var rest := Positions(bs[..n]);
      if bs[n] then rest + [n] else rest
  }
  /** There are no more positions than entries, and every entry counts when all hold. */
  lemma {:induction false} PositionsLength(bs: seq<bool>)
    ensures |Positions(bs)| <= |bs|
    ensures (forall i :: 0 <= i < |bs| ==> bs[i]) ==> |Positions(bs)| == |bs|
  {
    if |bs| > 0 {
      PositionsLength(bs[..|bs| - 1]);
    }
  }


  /** The index of the first `true` in `bs`: a search that stops at its first hit. */
  function FirstTrue(bs: seq<bool>): (r: Option<nat>)
    ensures r.Some? ==> r.value < |bs| && bs[r.value]
    ensures r.Some? ==> forall k :: 0 <= k < r.value ==> !bs[k]
    ensures r.None? <==> forall k :: 0 <= k < |bs| ==> !bs[k]
  {
    if |bs| == 0 then None
    else if bs[0] then Some(0)
    else
      var rest := FirstTrue(bs[1..]);
      assert forall k :: 1 <= k < |bs| ==> bs[k] == bs[1..][k - 1];
      match rest
      case None => None
      case Some(k) => Some(k + 1)
  }
}
