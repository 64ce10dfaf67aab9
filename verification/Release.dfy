/**
 * Giving a reference back: nodes that lose their last one release their children.
 */
module Releases {
  import opened Nodes
  import opened References

  /** When the last reference is gone the children are next. */
  lemma {:induction false} DeathStep(ref: seq<nat>, body: seq<Body>, holding: seq<bool>, ext: multiset<Id>, rest: seq<Id>, node: Id)
    requires CountsOk(ref, body, holding, ext, rest, []) && SENTINEL < node < |ref| && ref[node] == 0 && holding[node]
    ensures CountsOk(ref, body, holding[node := false], ext, rest + Children(body[node]), [])
    ensures Holders(holding[node := false]) < Holders(holding)
  {
    LastReferenceOk(ref, body, holding, ext, rest, node);
    HoldersChange(holding, node, false);
  }

  /** Nodes let go of their children exactly when they lose their last reference; no count rises. */
  ghost predicate LetGo(ref0: seq<nat>, holding0: seq<bool>, ref: seq<nat>, holding: seq<bool>)
  {
    && |ref0| == |holding0| == |ref| == |holding|
    && forall x :: 0 <= x < |ref| ==> ref[x] <= ref0[x] && (ref0[x] == MAXREF ==> ref[x] == MAXREF) && (holding[x] <==> holding0[x] && !(ref0[x] > 0 && ref[x] == 0))
  }

  /** A release that is not the last one ends there. */
  ghost predicate OneRelease(ref0: seq<nat>, holding0: seq<bool>, ref: seq<nat>, holding: seq<bool>, id: Id, top: seq<Id>)
    requires id < |ref0| == |ref| && ref0[id] > 0
  {
    if top == [id] && ref == ref0 then holding == holding0
    else if SatDec(ref0[id]) > 0 then top == [] && ref == ref0[id := SatDec(ref0[id])] && holding == holding0
    else ref[id] == 0
  }

  /** The releases made so far. */
  ghost predicate Releasing(body: seq<Body>, ref0: seq<nat>, holding0: seq<bool>, ext: multiset<Id>, id: Id,
                            ref: seq<nat>, holding: seq<bool>, top: seq<Id>)
  {
    && CountsOk(ref, body, holding, ext, top, []) && LetGo(ref0, holding0, ref, holding)
    && id < |ref0| && ref0[id] > 0 && OneRelease(ref0, holding0, ref, holding, id, top)
  }

  lemma {:induction false} ReleaseMade(body: seq<Body>, ref0: seq<nat>, holding0: seq<bool>, ext: multiset<Id>, id: Id,
                                       ref: seq<nat>, holding: seq<bool>, rest: seq<Id>, node: Id)
    requires Releasing(body, ref0, holding0, ext, id, ref, holding, rest + [node])
    ensures node < |ref| && ref[node] > 0
    ensures SatDec(ref[node]) > 0 ==> Releasing(body, ref0, holding0, ext, id, ref[node := SatDec(ref[node])], holding, rest)
    ensures SatDec(ref[node]) == 0 ==>
              && Releasing(body, ref0, holding0, ext, id, ref[node := 0], holding[node := false], rest + Children(body[node]))
              && Holders(holding[node := false]) < Holders(holding)
  {
    assert node in rest + [node];
    ReleasedOk(ref, body, holding, ext, rest, node);
    OnlyEntry(id, rest, node);
    if SatDec(ref[node]) == 0 { DeathStep(ref[node := 0], body, holding, ext, rest, node); }
  }

  /** Makes a release and all the releases that follow from it; each of them meets a reference. */
  method ReleaseAll(ref0: seq<nat>, body: seq<Body>, ghost holding0: seq<bool>, ghost ext: multiset<Id>, id: Id)
    returns (ref: seq<nat>, ghost holding: seq<bool>, ok: bool)
    requires CountsOk(ref0, body, holding0, ext, [id], [])
    ensures ok && Releasing(body, ref0, holding0, ext, id, ref, holding, [])
  {
    ref, holding, ok := ref0, holding0, true;
    var top := [id];
    ClaimedLives(ref, body, holding, ext, top, id);
    while top != [] && ok
      invariant ok && Releasing(body, ref0, holding0, ext, id, ref, holding, top)
      decreases Holders(holding), |top|
    {
      var node := top[|top| - 1];
      assert top == top[..|top| - 1] + [node];
      top := top[..|top| - 1];
      ReleaseMade(body, ref0, holding0, ext, id, ref, holding, top, node);
      ok := ref[node] != 0;
      if ok {
        ref := ref[node := SatDec(ref[node])];
        if ref[node] == 0 {
          holding := holding[node := false];
          top := top + Children(body[node]);
        }
      }
    }
  }
}
