/**
 * The fan-out of `broadcast_message`: the guards, then one pass over a
 * snapshot of `read_user_ids()` with one push per id, counting successes and
 * listing failures in the order met. The push transport is a caller-supplied
 * outcome per id: true when the platform accepted the push.
 */
module Broadcast {
  import opened SubscriberRegistry

  datatype BroadcastResult =
    | TextRequired
      // "Message text is required", raised before the store is read
    | NoUsers
      // "No users to send message to", total_users 0
    | Completed(totalUsers: nat, successCount: nat, failedUsers: seq<string>)
      // "Broadcast completed", with failed_count = |failedUsers|

  /** The ids whose push fails, in the order of `ids`. */
  function FailedUsers(ids: seq<string>, push: string -> bool): (f: seq<string>)
    ensures |f| <= |ids|
    ensures forall x :: x in f ==> x in ids && !push(x)
  {
    if ids == [] then []
    else
      var last := ids[|ids| - 1];
      var f := FailedUsers(ids[..|ids| - 1], push);
      f + (if push(last) then [] else [last])
  }

  /** How many pushes over `ids` succeed. */
  function SuccessCount(ids: seq<string>, push: string -> bool): (n: nat)
    ensures n <= |ids|
  {
    if ids == [] then 0
    else SuccessCount(ids[..|ids| - 1], push) + (if push(ids[|ids| - 1]) then 1 else 0)
  }

  /** `a` is `b` with some elements left out, the rest in their order. */
  predicate IsSubsequence(a: seq<string>, b: seq<string>)
    decreases |b|
  {
    if a == [] then true
    else if b == [] then false
    else
      (a[|a| - 1] == b[|b| - 1] && IsSubsequence(a[..|a| - 1], b[..|b| - 1]))
      || IsSubsequence(a, b[..|b| - 1])
  }

  /** Every targeted id is accounted for exactly once: as a success or in
      the failure list. */
  lemma {:induction false} TallyConservation(ids: seq<string>, push: string -> bool)
    ensures SuccessCount(ids, push) + |FailedUsers(ids, push)| == |ids|
  {
    if ids != [] {
      TallyConservation(ids[..|ids| - 1], push);
    }
  }

  /** The failure list keeps the order of the snapshot. */
  lemma {:induction false} FailedUsersInOrder(ids: seq<string>, push: string -> bool)
    ensures IsSubsequence(FailedUsers(ids, push), ids)
  {
    if ids != [] {
      var init, last := ids[..|ids| - 1], ids[|ids| - 1];
      FailedUsersInOrder(init, push);
      var f := FailedUsers(init, push);
      assert ids == init + [last];
      if push(last) {
        assert FailedUsers(ids, push) == f;
        SubsequenceExtend(f, init, last);
      } else {
        assert (f + [last])[..|f|] == f;
      }
    }
  }

  lemma {:induction false} SubsequenceExtend(a: seq<string>, b: seq<string>, x: string)
    requires IsSubsequence(a, b)
    ensures IsSubsequence(a, b + [x])
  {
    assert (b + [x])[..|b|] == b;
  }

  /** Every id of the snapshot whose push fails is in the failure list. */
  lemma {:induction false} FailedUsersComplete(ids: seq<string>, push: string -> bool, x: string)
    requires x in ids && !push(x)
    ensures x in FailedUsers(ids, push)
  {
    var init, last := ids[..|ids| - 1], ids[|ids| - 1];
    if x != last {
      assert ids == init + [last];
      FailedUsersComplete(init, push, x);
    }
  }

  /** What `broadcast_message` answers for `text` and a snapshot of ids. */
  function Outcome(text: string, ids: seq<string>, push: string -> bool): BroadcastResult
  {
    if text == "" then TextRequired
    else if ids == [] then NoUsers
    else Completed(|ids|, SuccessCount(ids, push), FailedUsers(ids, push))
  }

  /** The ids pushed to, in order of the calls. */
  function Pushed(text: string, ids: seq<string>): seq<string>
  {
    if text == "" then [] else ids
  }

  /** The accounting the response reports holds for every input. */
  lemma OutcomeAccounting(text: string, ids: seq<string>, push: string -> bool)
    requires text != "" && ids != []
    ensures Outcome(text, ids, push).Completed?
    ensures var r := Outcome(text, ids, push);
      && r.totalUsers == |ids|
      && r.successCount + |r.failedUsers| == r.totalUsers
      && IsSubsequence(r.failedUsers, ids)
      && (forall x :: x in r.failedUsers <==> x in ids && !push(x))
  {
    TallyConservation(ids, push);
    FailedUsersInOrder(ids, push);
    forall x | x in ids && !push(x) ensures x in FailedUsers(ids, push) {
      FailedUsersComplete(ids, push, x);
    }
  }

  /** Three subscribers, the push to the second fails: two successes and
      that one id in the failure list. */
  lemma ThreeUsersOneFails(a: string, b: string, c: string, push: string -> bool)
    requires push(a) && !push(b) && push(c)
    ensures Outcome("hi", [a, b, c], push) == Completed(3, 2, [b])
  {
    var ids := [a, b, c];
    assert ids[..2] == [a, b] && [a, b][..1] == [a] && [a][..0] == [];
    assert SuccessCount([a], push) == 1 && FailedUsers([a], push) == [];
    assert SuccessCount([a, b], push) == 1 && FailedUsers([a, b], push) == [b];
  }

  /** `broadcast_message(text)`: an empty text is refused before the store is
      read; an empty store answers with no pushes; otherwise every id of one
      snapshot is pushed once, in order, and each is counted as a success or
      listed as a failure. */
  method BroadcastMessage(store: SubscriberStore, text: string, push: string -> bool)
    returns (result: BroadcastResult, pushed: seq<string>)
    requires store.Valid()
    ensures result == Outcome(text, store.Ids(), push)
    ensures pushed == Pushed(text, store.Ids())
    ensures text == "" ==> result == TextRequired && pushed == []
    ensures text != "" && store.Ids() == [] ==> result == NoUsers && pushed == []
    ensures text != "" && store.Ids() != [] ==> pushed == store.Ids() && result.Completed?
    ensures result.Completed? ==> result.successCount + |result.failedUsers| == result.totalUsers == |pushed|
    ensures result.Completed? ==> IsSubsequence(result.failedUsers, pushed)
    ensures result.Completed? ==> forall x :: x in result.failedUsers <==> x in pushed && !push(x)
  {
    if text == "" {
      return TextRequired, [];
    }
    var userIds := store.ReadUserIds();
    if userIds == [] {
      return NoUsers, [];
    }
    var successCount, failedUsers;
    successCount, failedUsers, pushed := PushAll(userIds, push);
    OutcomeAccounting(text, userIds, push);
    result := Completed(|userIds|, successCount, failedUsers);
  }

  /** The loop of `broadcast_message`: one push per id, in order; a success
      is counted, a failure is appended to the failure list. */
  method PushAll(userIds: seq<string>, push: string -> bool)
    returns (successCount: nat, failedUsers: seq<string>, pushed: seq<string>)
    ensures pushed == userIds
    ensures successCount == SuccessCount(userIds, push)
    ensures failedUsers == FailedUsers(userIds, push)
  {
    successCount := 0;
    failedUsers := [];
    pushed := [];
    for i := 0 to |userIds|
      invariant pushed == userIds[..i]
      invariant successCount == SuccessCount(userIds[..i], push)
      invariant failedUsers == FailedUsers(userIds[..i], push)
    {
      var userId := userIds[i];
      assert userIds[..i + 1][..i] == userIds[..i];
      pushed := pushed + [userId];
      if push(userId) {
        successCount := successCount + 1;
      } else {
        failedUsers := failedUsers + [userId];
      }
    }
    assert userIds[..|userIds|] == userIds;
  }
}
