/**
 The buddy service (`YafBuddy`). The buddy list of the current user is a list
 of rows `(UserID, FromUserID, Approved, Requested)`; the current user, the
 clock and the list the database returns come in as parameters. The data
 changes themselves are stored procedures outside this model, so a mutator is
 modelled by the effects it issues, in order: the `UpdateUserEvent`s that
 clear cached user data, then the repository call.
 */
module Buddy {
  import opened Text

  /** A row of the buddy list. `requested` is the request time in ticks. */
  datatype Row = Row(userId: int, fromUserId: int, approved: bool, requested: int)

  /** What a mutator does: clear a user's cached data, or call the buddy
      repository. `requester` is the user who asked to become a buddy of
      `approver`. */
  datatype Effect =
    | UpdateUser(userId: int)
    | AddCall(fromUser: int, toUser: int)
    | ApproveCall(requester: int, approver: int, mutual: bool)
    | DenyCall(requester: int, approver: int)
    | RemoveCall(fromUser: int, toUser: int)

  /** `TimeSpan.TicksPerDay`. */
  const TicksPerDay: int := 864_000_000_000

  // ---------------------------------------------------------------------------
  // IsBuddy.

  /** Some row is for `buddy`, and approved when `approvedOnly` is set. */
  predicate HasRow(rows: seq<Row>, buddy: int, approvedOnly: bool) {
    rows != [] && ((rows[0].userId == buddy && (!approvedOnly || rows[0].approved)) || HasRow(rows[1..], buddy, approvedOnly))
  }

  lemma {:induction false} HasRowSpec(rows: seq<Row>, buddy: int, approvedOnly: bool)
    ensures HasRow(rows, buddy, approvedOnly) <==>
      exists r :: r in rows && r.userId == buddy && (approvedOnly ==> r.approved)
  {
    if rows != [] {
      HasRowSpec(rows[1..], buddy, approvedOnly);
      assert forall r :: r in rows <==> r == rows[0] || r in rows[1..];
    }
  }

  /** `IsBuddy`: the current user is their own buddy; otherwise a missing or
      empty list has no buddy, and the list is searched for a row of
      `buddyUserId`, approved when `approved` is set. */
  function IsBuddy(list: Option<seq<Row>>, current: int, buddyUserId: int, approved: bool): bool {
    if buddyUserId == current then true
    else match list
      case None => false
      case Some(rows) => if rows == [] then false else HasRow(rows, buddyUserId, approved)
  }

  /** `IsBuddy` in terms of the rows: both directions. */
  lemma IsBuddySpec(list: Option<seq<Row>>, current: int, buddyUserId: int, approved: bool)
    ensures IsBuddy(list, current, buddyUserId, approved) <==>
      buddyUserId == current ||
      (list.Some? && exists r :: r in list.value && r.userId == buddyUserId && (approved ==> r.approved))
  {
    if list.Some? {
      HasRowSpec(list.value, buddyUserId, approved);
    }
  }

  /** An approved buddy is a buddy. */
  lemma ApprovedIsBuddy(list: Option<seq<Row>>, current: int, buddyUserId: int)
    ensures IsBuddy(list, current, buddyUserId, true) ==> IsBuddy(list, current, buddyUserId, false)
  {
    IsBuddySpec(list, current, buddyUserId, true);
    IsBuddySpec(list, current, buddyUserId, false);
  }

  // ---------------------------------------------------------------------------
  // The mutators.

  /** `ClearCache`: an `UpdateUserEvent` for the current user, then one for
      `userId`. */
  function ClearCache(current: int, userId: int): seq<Effect> {
    [UpdateUser(current), UpdateUser(userId)]
  }

  /** The user a repository call is about, other than the current user. */
  function Target(e: Effect): int
    requires !e.UpdateUser?
  {
    match e
    case AddCall(_, toUser) => toUser
    case ApproveCall(requester, _, _) => requester
    case DenyCall(requester, _) => requester
    case RemoveCall(_, toUser) => toUser
  }

  /** Every repository call comes right after the cache of the current user
      and then of the call's target has been cleared. */
  predicate Guarded(es: seq<Effect>, current: int) {
    forall j :: 0 <= j < |es| && !es[j].UpdateUser? ==>
      2 <= j && es[j - 2] == UpdateUser(current) && es[j - 1] == UpdateUser(Target(es[j]))
  }

  /** The repository calls, in order. */
  function Calls(es: seq<Effect>): (r: seq<Effect>)
    ensures |r| <= |es|
  {
    if es == [] then [] else (if es[0].UpdateUser? then [] else [es[0]]) + Calls(es[1..])
  }

  /** The shape of every mutator: clear both caches, then call the
      repository. */
  function Issue(current: int, target: int, call: Effect): (r: seq<Effect>)
    requires !call.UpdateUser? && Target(call) == target
    ensures Guarded(r, current) && Calls(r) == [call]
  {
    var r := ClearCache(current, target) + [call];
    assert Calls([call]) == [call] by {
      assert [call][1..] == [];
    }
    assert Calls(r[1..]) == [call] by {
      assert r[1..][1..] == [call];
    }
    r
  }

  /** `AddRequest(toUserId)`. */
  function AddRequest(current: int, toUserId: int): (r: seq<Effect>)
    ensures Guarded(r, current) && Calls(r) == [AddCall(current, toUserId)]
  {
    Issue(current, toUserId, AddCall(current, toUserId))
  }

  /** `ApproveRequest(toUserId, mutual)`: `toUserId` asked the current user. */
  function ApproveRequest(current: int, toUserId: int, mutual: bool): (r: seq<Effect>)
    ensures Guarded(r, current) && Calls(r) == [ApproveCall(toUserId, current, mutual)]
  {
    Issue(current, toUserId, ApproveCall(toUserId, current, mutual))
  }

  /** `DenyRequest(toUserId)`. */
  function DenyRequest(current: int, toUserId: int): (r: seq<Effect>)
    ensures Guarded(r, current) && Calls(r) == [DenyCall(toUserId, current)]
  {
    Issue(current, toUserId, DenyCall(toUserId, current))
  }

  /** `Remove(toUserId)`. */
  function Remove(current: int, toUserId: int): (r: seq<Effect>)
    ensures Guarded(r, current) && Calls(r) == [RemoveCall(current, toUserId)]
  {
    Issue(current, toUserId, RemoveCall(current, toUserId))
  }

  lemma {:induction false} CallsAppend(a: seq<Effect>, b: seq<Effect>)
    ensures Calls(a + b) == Calls(a) + Calls(b)
  {
    if a != [] {
      assert (a + b)[1..] == a[1..] + b;
      CallsAppend(a[1..], b);
    } else {
      assert a + b == b;
    }
  }

  lemma GuardedAppend(a: seq<Effect>, b: seq<Effect>, current: int)
    requires Guarded(a, current) && Guarded(b, current)
    ensures Guarded(a + b, current)
  {
    forall j | 0 <= j < |a + b| && !(a + b)[j].UpdateUser?
      ensures 2 <= j && (a + b)[j - 2] == UpdateUser(current) && (a + b)[j - 1] == UpdateUser(Target((a + b)[j]))
    {
      if j >= |a| {
        var i := j - |a|;
        assert b[i] == (a + b)[j];
        assert 2 <= i;
        assert (a + b)[j - 2] == b[i - 2] && (a + b)[j - 1] == b[i - 1];
      } else {
        assert a[j] == (a + b)[j];
      }
    }
  }

  // ---------------------------------------------------------------------------
  // ApproveAllRequests and DenyAllRequests.

  /** The row filter `Approved = 0 AND UserID = current`, in list order. */
  function Pending(rows: seq<Row>, current: int): (r: seq<Row>)
    ensures |r| <= |rows|
  {
    if rows == [] then []
    else (if !rows[0].approved && rows[0].userId == current then [rows[0]] else []) + Pending(rows[1..], current)
  }

  lemma {:induction false} PendingSpec(rows: seq<Row>, current: int)
    ensures forall r :: r in Pending(rows, current) <==> r in rows && !r.approved && r.userId == current
  {
    if rows != [] {
      PendingSpec(rows[1..], current);
      assert forall r :: r in rows <==> r == rows[0] || r in rows[1..];
    }
  }

  /** A request is old enough to deny when `Requested.AddDays(14)` is
      earlier than now. */
  predicate Expired(r: Row, now: int) {
    r.requested + 14 * TicksPerDay < now
  }

  /** The `Where` clause of `DenyAllRequests`, in list order. */
  function Overdue(rows: seq<Row>, now: int): (r: seq<Row>)
    ensures |r| <= |rows|
  {
    if rows == [] then []
    else (if Expired(rows[0], now) then [rows[0]] else []) + Overdue(rows[1..], now)
  }

  lemma {:induction false} OverdueSpec(rows: seq<Row>, now: int)
    ensures forall r :: r in Overdue(rows, now) <==> r in rows && Expired(r, now)
  {
    if rows != [] {
      OverdueSpec(rows[1..], now);
      assert forall r :: r in rows <==> r == rows[0] || r in rows[1..];
    }
  }

  /** `ApproveRequest` for the requester of every row, in order. */
  function ApproveEach(rows: seq<Row>, current: int, mutual: bool): seq<Effect> {
    if rows == [] then [] else ApproveRequest(current, rows[0].fromUserId, mutual) + ApproveEach(rows[1..], current, mutual)
  }

  /** `DenyRequest` for the requester of every row, in order. */
  function DenyEach(rows: seq<Row>, current: int): seq<Effect> {
    if rows == [] then [] else DenyRequest(current, rows[0].fromUserId) + DenyEach(rows[1..], current)
  }

  /** `ApproveAllRequests(mutual)` over the current user's buddy list. */
  function ApproveAllRequests(rows: seq<Row>, current: int, mutual: bool): seq<Effect> {
    ApproveEach(Pending(rows, current), current, mutual)
  }

  /** `DenyAllRequests()` over the current user's buddy list at time `now`. */
  function DenyAllRequests(rows: seq<Row>, current: int, now: int): seq<Effect> {
    DenyEach(Overdue(Pending(rows, current), now), current)
  }

  /** One approval per row, in row order, each behind its cache clears. */
  lemma {:induction false} ApproveEachSpec(rows: seq<Row>, current: int, mutual: bool)
    ensures var es := ApproveEach(rows, current, mutual);
      && Guarded(es, current)
      && |Calls(es)| == |rows|
      && forall i :: 0 <= i < |rows| ==> Calls(es)[i] == ApproveCall(rows[i].fromUserId, current, mutual)
  {
    if rows != [] {
      var head := ApproveRequest(current, rows[0].fromUserId, mutual);
      var tail := ApproveEach(rows[1..], current, mutual);
      ApproveEachSpec(rows[1..], current, mutual);
      CallsAppend(head, tail);
      GuardedAppend(head, tail, current);
    }
  }

  /** One denial per row, in row order, each behind its cache clears. */
  lemma {:induction false} DenyEachSpec(rows: seq<Row>, current: int)
    ensures var es := DenyEach(rows, current);
      && Guarded(es, current)
      && |Calls(es)| == |rows|
      && forall i :: 0 <= i < |rows| ==> Calls(es)[i] == DenyCall(rows[i].fromUserId, current)
  {
    if rows != [] {
      var head := DenyRequest(current, rows[0].fromUserId);
      var tail := DenyEach(rows[1..], current);
      DenyEachSpec(rows[1..], current);
      CallsAppend(head, tail);
      GuardedAppend(head, tail, current);
    }
  }

  /** `ApproveAllRequests` approves the request of every pending row addressed
      to the current user and nothing else, clearing both caches before each
      approval. */
  lemma ApproveAllSpec(rows: seq<Row>, current: int, mutual: bool)
    ensures var es := ApproveAllRequests(rows, current, mutual);
      && Guarded(es, current)
      && (forall r :: r in rows && !r.approved && r.userId == current ==>
            ApproveCall(r.fromUserId, current, mutual) in Calls(es))
      && (forall c :: c in Calls(es) ==>
            exists r :: r in rows && !r.approved && r.userId == current && c == ApproveCall(r.fromUserId, current, mutual))
  {
    var p := Pending(rows, current);
    var es := ApproveAllRequests(rows, current, mutual);
    PendingSpec(rows, current);
    ApproveEachSpec(p, current, mutual);
    forall r | r in rows && !r.approved && r.userId == current
      ensures ApproveCall(r.fromUserId, current, mutual) in Calls(es)
    {
      var i :| 0 <= i < |p| && p[i] == r;
      assert Calls(es)[i] == ApproveCall(r.fromUserId, current, mutual);
    }
    forall c | c in Calls(es)
      ensures exists r :: r in rows && !r.approved && r.userId == current && c == ApproveCall(r.fromUserId, current, mutual)
    {
      var i :| 0 <= i < |Calls(es)| && Calls(es)[i] == c;
      assert p[i] in p;
    }
  }

  /** `DenyAllRequests` denies the request of every pending row addressed to
      the current user that is more than 14 days old, and nothing else: a
      newer request is left alone. Both caches are cleared before each
      denial. */
  lemma DenyAllSpec(rows: seq<Row>, current: int, now: int)
    ensures var es := DenyAllRequests(rows, current, now);
      && Guarded(es, current)
      && (forall r :: r in rows && !r.approved && r.userId == current && Expired(r, now) ==>
            DenyCall(r.fromUserId, current) in Calls(es))
      && (forall c :: c in Calls(es) ==>
            exists r :: r in rows && !r.approved && r.userId == current && Expired(r, now) && c == DenyCall(r.fromUserId, current))
  {
    var p := Overdue(Pending(rows, current), now);
    var es := DenyAllRequests(rows, current, now);
    PendingSpec(rows, current);
    OverdueSpec(Pending(rows, current), now);
    DenyEachSpec(p, current);
    forall r | r in rows && !r.approved && r.userId == current && Expired(r, now)
      ensures DenyCall(r.fromUserId, current) in Calls(es)
    {
      var i :| 0 <= i < |p| && p[i] == r;
      assert Calls(es)[i] == DenyCall(r.fromUserId, current);
    }
    forall c | c in Calls(es)
      ensures exists r :: r in rows && !r.approved && r.userId == current && Expired(r, now) && c == DenyCall(r.fromUserId, current)
    {
      var i :| 0 <= i < |Calls(es)| && Calls(es)[i] == c;
      assert p[i] in p;
    }
  }
}
