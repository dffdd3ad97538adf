/** Processing of a RIC subscription request (section 8.2.1 of O-RAN E2AP): nested loops over the IEs and over
    the actions of each details IE. */
module Subscription {
  import opened Wrappers
  import opened Words
  import opened LastOf

  datatype ActionType = Report | Insert | Policy

  datatype Action = Action(id: int, kind: ActionType)

  datatype Ie =
    | RequestId(requestor: int, instance: int)
    | RanFunctionId(id: int)
    | Details(actions: seq<Action>)
    | Other

  // The two ids are read from one IE and stored together.
  datatype RequestIds = RequestIds(requestor: nat, instance: nat)

  // RicSubscriptionRequest_rval_s.
  datatype Params = Params(ids: RequestIds, ranFunctionId: nat, actionId: nat)

  // What is handed to the generator of the success response.
  datatype Response = Response(accepted: seq<nat>, rejected: seq<nat>, ids: RequestIds)

  method ProcessRicSubscriptionRequest(ies: seq<Ie>) returns (response: Response, params: Params)
    ensures params.ids == response.ids == Last(IdsOf, ies, RequestIds(0, 0))
    ensures params.ranFunctionId == Last(FunctionOf, ies, 0)
    ensures params.actionId == Last(LastActionOf, ies, 0)
    ensures response.accepted == Accepted(ies) && response.rejected == []
  {
    hide ToU8, ToU16, FirstMatch, Choice, Last, Accepted;
    NothingRead();
    var reqRequestorId: nat, reqInstanceId: nat, ranFunctionId: nat, reqActionId: nat := 0, 0, 0, 0;
    var actionIdsAccept: seq<nat>, actionIdsReject: seq<nat> := [], [];
    for i := 0 to |ies|
      invariant RequestIds(reqRequestorId, reqInstanceId) == Last(IdsOf, ies[..i], RequestIds(0, 0))
      invariant ranFunctionId == Last(FunctionOf, ies[..i], 0)
      invariant reqActionId == Last(LastActionOf, ies[..i], 0)
      invariant actionIdsAccept == Accepted(ies[..i]) && actionIdsReject == []
    {
      StepReads(ies, i);
      match ies[i] {
        case RequestId(requestor, instance) =>
          reqRequestorId := ToU16(requestor);
          reqInstanceId := ToU16(instance);
        case RanFunctionId(id) =>
          ranFunctionId := ToU16(id);
        case Details(actions) =>
          var foundAction := false;
          NothingChosen();
          ghost var before := actionIdsAccept;
          ghost var idBefore := reqActionId;
          for k := 0 to |actions|
            invariant foundAction <==> FirstMatch(actions[..k]).Some?
            invariant reqActionId == if k == 0 then idBefore else ToU8(actions[k - 1].id)
            invariant actionIdsAccept == before + Choice(actions[..k])
          {
            ChoiceStep(actions, k);
            if !foundAction && (actions[k].kind == Report || actions[k].kind == Insert) {
              reqActionId := ToU8(actions[k].id);
              actionIdsAccept := actionIdsAccept + [reqActionId];
              foundAction := true;
            } else {
              reqActionId := ToU8(actions[k].id);
            }
          }
          assert actions[..|actions|] == actions;
        case Other =>
      }
    }
    assert ies[..|ies|] == ies;
    response := Response(actionIdsAccept, actionIdsReject, RequestIds(reqRequestorId, reqInstanceId));
    params := Params(RequestIds(reqRequestorId, reqInstanceId), ranFunctionId, reqActionId);
  }

  // ---------- the declarative reading ----------

  function IdsOf(ie: Ie): Option<RequestIds> {
    if ie.RequestId? then Some(RequestIds(ToU16(ie.requestor), ToU16(ie.instance))) else None
  }

  function FunctionOf(ie: Ie): Option<nat> { if ie.RanFunctionId? then Some(ToU16(ie.id)) else None }

  // A details IE with actions leaves the id of its last action, accepted or not.
  function LastActionOf(ie: Ie): Option<nat> {
    if ie.Details? && ie.actions != [] then Some(ToU8(ie.actions[|ie.actions| - 1].id)) else None
  }

  predicate Acceptable(a: Action) { a.kind == Report || a.kind == Insert }

  // The position of the first action of an acceptable type.
  function FirstMatch(actions: seq<Action>): (r: Option<nat>)
    ensures r.Some? ==> r.value < |actions| && Acceptable(actions[r.value])
                        && forall j :: 0 <= j < r.value ==> !Acceptable(actions[j])
    ensures r.None? ==> forall j :: 0 <= j < |actions| ==> !Acceptable(actions[j])
  {
    if actions == [] then None
    else if Acceptable(actions[0]) then Some(0)
    else
      match FirstMatch(actions[1..])
      case Some(k) => Some(k + 1)
      case None => None
  }

  // The id accepted for one details IE, if any.
  function Choice(actions: seq<Action>): seq<nat> {
    match FirstMatch(actions)
    case Some(k) => [ToU8(actions[k].id)]
    case None => []
  }

  function ChoiceOf(ie: Ie): seq<nat> { if ie.Details? then Choice(ie.actions) else [] }

  function Accepted(ies: seq<Ie>): seq<nat>
  {
    if ies == [] then [] else Accepted(ies[..|ies| - 1]) + ChoiceOf(ies[|ies| - 1])
  }

  // Seeing one more action changes the choice only if there was none before.
  lemma FirstMatchStep(actions: seq<Action>, k: nat)
    requires k < |actions|
    ensures FirstMatch(actions[..k + 1]) ==
      if FirstMatch(actions[..k]).Some? then FirstMatch(actions[..k])
      else if Acceptable(actions[k]) then Some(k) else None
  {
    var a, b := actions[..k], actions[..k + 1];
    assert forall j :: 0 <= j < k ==> a[j] == b[j];
    if FirstMatch(a).Some? {
      assert Acceptable(b[FirstMatch(a).value]);
    } else if Acceptable(actions[k]) {
      assert Acceptable(b[k]);
    }
  }

  lemma ChoiceStep(actions: seq<Action>, k: nat)
    requires k < |actions|
    ensures var before, after := actions[..k], actions[..k + 1];
      var taken := FirstMatch(before).None? && Acceptable(actions[k]);
      && (FirstMatch(after).Some? <==> FirstMatch(before).Some? || taken)
      && Choice(after) == Choice(before) + if taken then [ToU8(actions[k].id)] else []
  {
    hide FirstMatch, ToU8;
    FirstMatchStep(actions, k);
  }

  lemma NothingChosen()
    ensures FirstMatch([]).None? && Choice([]) == []
  {
  }

  // What one more IE changes.
  lemma StepReads(ies: seq<Ie>, k: nat)
    requires k < |ies|
    ensures Last(IdsOf, ies[..k + 1], RequestIds(0, 0)) ==
      match IdsOf(ies[k]) case Some(v) => v case None => Last(IdsOf, ies[..k], RequestIds(0, 0))
    ensures Last(FunctionOf, ies[..k + 1], 0) ==
      match FunctionOf(ies[k]) case Some(v) => v case None => Last(FunctionOf, ies[..k], 0)
    ensures Last(LastActionOf, ies[..k + 1], 0) ==
      match LastActionOf(ies[k]) case Some(v) => v case None => Last(LastActionOf, ies[..k], 0)
    ensures Accepted(ies[..k + 1]) == Accepted(ies[..k]) + ChoiceOf(ies[k])
  {
    hide Last, ChoiceOf;
    LastStep(IdsOf, ies, k, RequestIds(0, 0));
    LastStep(FunctionOf, ies, k, 0);
    LastStep(LastActionOf, ies, k, 0);
    assert ies[..k + 1][..k] == ies[..k];
  }

  lemma NothingRead()
    ensures Last(IdsOf, [], RequestIds(0, 0)) == RequestIds(0, 0)
    ensures Last(FunctionOf, [], 0) == Last(LastActionOf, [], 0) == 0 && Accepted([]) == []
  {
  }

  // ---------- what each kind of IE leaves behind ----------

  // The last request id gives the two ids, each narrowed to 16 bits.
  lemma RequestIdStored(before: seq<Ie>, requestor: int, instance: int, after: seq<Ie>)
    requires forall i :: 0 <= i < |after| ==> !after[i].RequestId?
    ensures var ids := Last(IdsOf, before + [RequestId(requestor, instance)] + after, RequestIds(0, 0));
      ids.requestor == requestor % 0x1_0000 && ids.instance == instance % 0x1_0000
  {
    hide Last;
    LastAt(IdsOf, before, RequestId(requestor, instance), after, RequestIds(0, 0));
  }

  lemma FunctionIdStored(before: seq<Ie>, id: int, after: seq<Ie>)
    requires forall i :: 0 <= i < |after| ==> !after[i].RanFunctionId?
    ensures Last(FunctionOf, before + [RanFunctionId(id)] + after, 0) == id % 0x1_0000
  {
    hide Last;
    LastAt(FunctionOf, before, RanFunctionId(id), after, 0);
  }

  lemma ActionIdStored(before: seq<Ie>, actions: seq<Action>, after: seq<Ie>)
    requires NoMoreActions(after) && actions != []
    ensures Last(LastActionOf, before + [Details(actions)] + after, 0) == actions[|actions| - 1].id % 256
  {
    hide Last;
    LastAt(LastActionOf, before, Details(actions), after, 0);
  }

  // What no IE gives stays 0.
  lemma NothingStored(ies: seq<Ie>)
    ensures (forall ie <- ies :: !ie.RequestId?) ==> Last(IdsOf, ies, RequestIds(0, 0)) == RequestIds(0, 0)
    ensures (forall ie <- ies :: !ie.RanFunctionId?) ==> Last(FunctionOf, ies, 0) == 0
    ensures NoMoreActions(ies) ==> Last(LastActionOf, ies, 0) == 0
  {
    hide Last;
    if forall ie <- ies :: !ie.RequestId? {
      LastOfNone(IdsOf, ies, RequestIds(0, 0));
    }
    if forall ie <- ies :: !ie.RanFunctionId? {
      LastOfNone(FunctionOf, ies, 0);
    }
    if NoMoreActions(ies) {
      LastOfNone(LastActionOf, ies, 0);
    }
  }

  lemma {:induction false} AcceptedAppend(a: seq<Ie>, b: seq<Ie>)
    ensures Accepted(a + b) == Accepted(a) + Accepted(b)
    decreases |b|
  {
    if b == [] {
      assert a + b == a;
    } else {
      var n := |b| - 1;
      assert (a + b)[..|a| + n] == a + b[..n];
      AcceptedAppend(a, b[..n]);
    }
  }

  // A details IE whose actions are POLICY up to a REPORT or INSERT adds that one's id, and only that.
  lemma FirstReportOrInsertAccepted(before: seq<Ie>, actions: seq<Action>, k: nat, after: seq<Ie>)
    requires k < |actions| && actions[k].kind in {Report, Insert}
    requires forall j :: 0 <= j < k ==> actions[j].kind == Policy
    ensures Accepted(before + [Details(actions)] + after) == Accepted(before) + [actions[k].id % 256] + Accepted(after)
  {
    hide FirstMatch;
    assert FirstMatch(actions) == Some(k);
    OneIeAccepted(before, Details(actions), after);
  }

  // Any other IE, and a details IE of POLICY actions alone, adds nothing.
  lemma NothingElseAccepted(before: seq<Ie>, ie: Ie, after: seq<Ie>)
    requires ie.Details? ==> forall j :: 0 <= j < |ie.actions| ==> ie.actions[j].kind == Policy
    ensures Accepted(before + [ie] + after) == Accepted(before) + Accepted(after)
  {
    hide FirstMatch;
    assert ie.Details? ==> FirstMatch(ie.actions) == None;
    OneIeAccepted(before, ie, after);
  }

  lemma OneIeAccepted(before: seq<Ie>, ie: Ie, after: seq<Ie>)
    ensures Accepted(before + [ie] + after) == Accepted(before) + ChoiceOf(ie) + Accepted(after)
  {
    hide ChoiceOf;
    AcceptedAppend(before + [ie], after);
    AcceptedAppend(before, [ie]);
    assert [ie][..0] == [];
  }

  // At most one id per details IE, in IE order.
  lemma {:induction false} AcceptedCount(ies: seq<Ie>)
    ensures |Accepted(ies)| <= |ies|
    ensures forall id <- Accepted(ies) ::
      exists i :: 0 <= i < |ies| && ies[i].Details? && FirstMatch(ies[i].actions).Some?
                  && id == ToU8(ies[i].actions[FirstMatch(ies[i].actions).value].id)
  {
    if ies != [] {
      var n := |ies| - 1;
      AcceptedCount(ies[..n]);
      forall id | id in Accepted(ies)
        ensures exists i :: 0 <= i < |ies| && ies[i].Details? && FirstMatch(ies[i].actions).Some?
                            && id == ToU8(ies[i].actions[FirstMatch(ies[i].actions).value].id)
      {
        if id in Accepted(ies[..n]) {
          var i :| 0 <= i < n && ies[..n][i].Details? && FirstMatch(ies[..n][i].actions).Some?
                   && id == ToU8(ies[..n][i].actions[FirstMatch(ies[..n][i].actions).value].id);
          assert ies[i] == ies[..n][i];
        } else {
          assert id in ChoiceOf(ies[n]);
        }
      }
    }
  }

  // ---------- permutation ----------

  // Each kind of IE occurs at most once.
  ghost predicate KindsUnique(ies: seq<Ie>) {
    forall i, j :: 0 <= i < j < |ies| ==>
      && !(ies[i].RequestId? && ies[j].RequestId?)
      && !(ies[i].RanFunctionId? && ies[j].RanFunctionId?)
      && !(ies[i].Details? && ies[j].Details?)
  }

  function ChoiceRead(ie: Ie): Option<seq<nat>> { if ie.Details? then Some(Choice(ie.actions)) else None }

  lemma {:induction false} AcceptedOfUnique(ies: seq<Ie>)
    requires KindsUnique(ies)
    ensures Accepted(ies) == Last(ChoiceRead, ies, [])
  {
    if ies != [] {
      var n := |ies| - 1;
      AcceptedOfUnique(ies[..n]);
      if ies[n].Details? {
        LastIsLast(ChoiceRead, ies[..n], []);
        assert forall i :: 0 <= i < n ==> !ies[..n][i].Details?;
      }
    }
  }

  lemma UniquePermutes(xs: seq<Ie>, ys: seq<Ie>)
    requires KindsUnique(xs) && multiset(xs) == multiset(ys)
    ensures KindsUnique(ys)
  {
    forall i, j | 0 <= i < j < |ys|
      ensures !(ys[i].RequestId? && ys[j].RequestId?)
      ensures !(ys[i].RanFunctionId? && ys[j].RanFunctionId?)
      ensures !(ys[i].Details? && ys[j].Details?)
    {
      var p, q := TwoPositions(xs, ys, i, j);
    }
  }

  function Without<T>(s: seq<T>, p: nat): (r: seq<T>)
    requires p < |s|
    ensures |r| == |s| - 1
    ensures forall k :: 0 <= k < |r| ==> r[k] == s[if k < p then k else k + 1]
  {
    s[..p] + s[p + 1..]
  }

  lemma WithoutMultiset<T>(s: seq<T>, p: nat)
    requires p < |s|
    ensures multiset(Without(s, p)) == multiset(s) - multiset{s[p]}
  {
    assert s == s[..p] + [s[p]] + s[p + 1..];
  }

  // Two positions of a permutation come from two different positions of the original.
  lemma TwoPositions<T>(xs: seq<T>, ys: seq<T>, i: nat, j: nat) returns (p: nat, q: nat)
    requires multiset(xs) == multiset(ys) && i < j < |ys|
    ensures p < |xs| && q < |xs| && p != q && xs[p] == ys[i] && xs[q] == ys[j]
  {
    assert ys[i] in multiset(xs);
    p :| 0 <= p < |xs| && xs[p] == ys[i];
    WithoutMultiset(xs, p);
    WithoutMultiset(ys, i);
    hide Without;
    assert Without(ys, i)[j - 1] == ys[j];
    assert ys[j] in multiset(Without(xs, p));
    var r: nat :| r < |Without(xs, p)| && Without(xs, p)[r] == ys[j];
    q := if r < p then r else r + 1;
  }

  // With each kind at most once, the outcome does not depend on the order of the IEs.
  lemma OrderIndependent(xs: seq<Ie>, ys: seq<Ie>)
    requires KindsUnique(xs) && multiset(xs) == multiset(ys)
    ensures Last(IdsOf, xs, RequestIds(0, 0)) == Last(IdsOf, ys, RequestIds(0, 0))
    ensures Last(FunctionOf, xs, 0) == Last(FunctionOf, ys, 0)
    ensures Last(LastActionOf, xs, 0) == Last(LastActionOf, ys, 0)
    ensures Accepted(xs) == Accepted(ys)
  {
    UniquePermutes(xs, ys);
    LastPermutes(IdsOf, xs, ys, RequestIds(0, 0));
    LastPermutes(FunctionOf, xs, ys, 0);
    LastPermutes(LastActionOf, xs, ys, 0);
    LastPermutes(ChoiceRead, xs, ys, []);
    AcceptedOfUnique(xs);
    AcceptedOfUnique(ys);
  }

  // ---------- the returned action id ----------

  // No actions come after the details IE in question.
  predicate NoMoreActions(after: seq<Ie>) {
    forall i :: 0 <= i < |after| && after[i].Details? ==> after[i].actions == []
  }

  // The action id returned to the caller is meant to be the accepted one. Take the last details IE with actions:
  // if it has an acceptable action, the id of the first such action is the last accepted one, and it is the
  // returned one exactly when the last action has the same low octet as that first acceptable action.
  lemma ReturnedActionIsAccepted(before: seq<Ie>, actions: seq<Action>, after: seq<Ie>)
    requires NoMoreActions(after) && FirstMatch(actions).Some?
    ensures var ies := before + [Details(actions)] + after;
      var first, last := actions[FirstMatch(actions).value], actions[|actions| - 1];
      && Accepted(ies) == Accepted(before) + Choice(actions) && |Choice(actions)| == 1
      && (Last(LastActionOf, ies, 0) == Choice(actions)[0] <==> ToU8(first.id) == ToU8(last.id))
  {
    LastDetails(before, actions, after);
  }

  // The returned id is among the accepted ones exactly when an earlier details IE accepted that low octet, or the
  // last one accepts it.
  lemma ReturnedActionAmongAccepted(before: seq<Ie>, actions: seq<Action>, after: seq<Ie>)
    requires NoMoreActions(after) && actions != []
    ensures var ies, last := before + [Details(actions)] + after, ToU8(actions[|actions| - 1].id);
      Last(LastActionOf, ies, 0) in Accepted(ies) <==>
      || last in Accepted(before)
      || (FirstMatch(actions).Some? && ToU8(actions[FirstMatch(actions).value].id) == last)
  {
    LastDetails(before, actions, after);
  }

  // So for a whole request with one details IE, at position p.
  lemma ReturnedActionOfRequest(ies: seq<Ie>, p: nat)
    requires KindsUnique(ies) && p < |ies| && ies[p].Details? && ies[p].actions != []
    ensures var actions := ies[p].actions;
      Last(LastActionOf, ies, 0) in Accepted(ies) <==>
      FirstMatch(actions).Some?
      && ToU8(actions[FirstMatch(actions).value].id) == ToU8(actions[|actions| - 1].id)
  {
    hide FirstMatch, ToU8, Last, Accepted;
    var before, after := ies[..p], ies[p + 1..];
    assert ies == before + [Details(ies[p].actions)] + after;
    AcceptedCount(before);
    assert forall i :: 0 <= i < |after| ==> after[i] == ies[p + 1 + i];
    ReturnedActionAmongAccepted(before, ies[p].actions, after);
  }

  predicate DistinctIds(actions: seq<Action>) {
    forall i, j :: 0 <= i < j < |actions| ==> ToU8(actions[i].id) != ToU8(actions[j].id)
  }

  // So for a list that repeats no id they agree exactly when no action follows the accepted one.
  lemma ReturnedActionWhenIdsDiffer(before: seq<Ie>, actions: seq<Action>, after: seq<Ie>)
    requires NoMoreActions(after) && FirstMatch(actions).Some? && DistinctIds(actions)
    ensures Last(LastActionOf, before + [Details(actions)] + after, 0) == Choice(actions)[0]
       <==> FirstMatch(actions) == Some(|actions| - 1)
  {
    ReturnedActionIsAccepted(before, actions, after);
    var k := FirstMatch(actions).value;
    assert k == |actions| - 1 || ToU8(actions[k].id) != ToU8(actions[|actions| - 1].id);
  }

  // With a repeated id an action may follow the accepted one and the two still agree.
  lemma RepeatedIdAgrees()
    ensures var ies := [Details([Action(1, Report), Action(1, Policy)])];
      Accepted(ies) == [1] && Last(LastActionOf, ies, 0) == 1
  {
    var actions := [Action(1, Report), Action(1, Policy)];
    LastDetails([], actions, []);
    assert [Details(actions)] == [] + [Details(actions)] + [];
  }

  // With no acceptable action there, it contributes nothing, yet the id of its last action is returned.
  lemma NothingAccepted(before: seq<Ie>, actions: seq<Action>, after: seq<Ie>)
    requires NoMoreActions(after) && FirstMatch(actions).None? && actions != []
    ensures var ies := before + [Details(actions)] + after;
      Accepted(ies) == Accepted(before) && Last(LastActionOf, ies, 0) == ToU8(actions[|actions| - 1].id)
  {
    LastDetails(before, actions, after);
  }

  lemma {:induction false} LastDetails(before: seq<Ie>, actions: seq<Action>, after: seq<Ie>)
    requires NoMoreActions(after)
    ensures Accepted(before + [Details(actions)] + after) == Accepted(before) + Choice(actions)
    ensures actions != [] ==>
      Last(LastActionOf, before + [Details(actions)] + after, 0) == ToU8(actions[|actions| - 1].id)
    decreases |after|
  {
    var ies := before + [Details(actions)] + after;
    var n := |ies| - 1;
    if after == [] {
      assert ies[..n] == before && ies[n] == Details(actions);
    } else {
      var m := |after| - 1;
      assert ies[..n] == before + [Details(actions)] + after[..m] && ies[n] == after[m];
      LastDetails(before, actions, after[..m]);
      assert ChoiceOf(after[m]) == [];
    }
  }

  // A concrete request where the two differ: action 1 is accepted, action 2 is returned.
  lemma ReturnedActionDiffers()
    ensures var ies := [RequestId(1001, 0), Details([Action(1, Report), Action(2, Policy)])];
      Accepted(ies) == [1] && Last(LastActionOf, ies, 0) == 2
  {
    var actions := [Action(1, Report), Action(2, Policy)];
    LastDetails([RequestId(1001, 0)], actions, []);
    assert Accepted([RequestId(1001, 0)]) == [];
    assert [RequestId(1001, 0), Details(actions)] == [RequestId(1001, 0)] + [Details(actions)] + [];
  }
}
