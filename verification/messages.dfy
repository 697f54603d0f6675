/**
 The recursive move and delete of the message repository. Each stored
 procedure call (`message_move`, `message_delete`, `message_deleteundelete`)
 becomes an `Action` applied to one row; the recursion asks the store for the
 replies of a message at the moment it gets there, exactly as the repository
 queries the database, and then calls the procedure on the message itself.
 */
module Messages {
  import opened Text
  import opened ReplyTree

  /** The stored procedure run on each message. */
  datatype Action =
    | MoveTo(topic: int)
    | Erase
    | SetDeleted(moderatorChanged: bool, reason: string, isDeleteAction: int)

  /** What one call does to the row of its message: `message_move` sets the
      topic, `message_delete` with `EraseMessage` removes the row, and
      `message_deleteundelete` marks the row deleted (or undeleted) with the
      reason. A missing row stays missing; the reply link is never touched. */
  function Effect(a: Action, r: Option<Message>): (e: Option<Message>)
    ensures e.Some? ==> r.Some? && e.value.replyTo == r.value.replyTo
  {
    match r
    case None => None
    case Some(m) =>
      match a
      case MoveTo(t) => Some(m.(topic := t))
      case Erase => None
      case SetDeleted(_, reason, d) => Some(m.(deleted := d != 0, deleteReason := reason))
  }

  /** Running the same procedure twice on a row is running it once. */
  lemma EffectIdempotent(a: Action, r: Option<Message>)
    ensures Effect(a, Effect(a, r)) == Effect(a, r)
  {
  }

  /** One stored procedure call on message `id`. */
  function Apply(s: Store, id: int, a: Action): (t: Store)
    ensures Row(t, id) == Effect(a, Row(s, id))
    ensures forall y :: y != id ==> Row(t, y) == Row(s, y)
  {
    match Effect(a, Row(s, id))
    case None => s - {id}
    case Some(m) => s[id := m]
  }

  /** The calls on `ids`, in order. */
  function ApplyAll(s: Store, ids: seq<int>, a: Action): Store
    decreases |ids|
  {
    if ids == [] then s else ApplyAll(Apply(s, ids[0], a), ids[1..], a)
  }

  lemma {:induction false} ApplyAllAppend(s: Store, x: seq<int>, y: seq<int>, a: Action)
    ensures ApplyAll(s, x + y, a) == ApplyAll(ApplyAll(s, x, a), y, a)
    decreases |x|
  {
    if x == [] {
      assert x + y == y;
    } else {
      assert (x + y)[0] == x[0] && (x + y)[1..] == x[1..] + y;
      ApplyAllAppend(Apply(s, x[0], a), x[1..], y, a);
    }
  }

  /** After the calls, a row has had the procedure applied when its id was
      called, however often, and is as it was otherwise. */
  lemma {:induction false} ApplyAllRow(s: Store, ids: seq<int>, a: Action, y: int)
    ensures Row(ApplyAll(s, ids, a), y) == if y in ids then Effect(a, Row(s, y)) else Row(s, y)
    decreases |ids|
  {
    if ids != [] {
      var t := Apply(s, ids[0], a);
      ApplyAllRow(t, ids[1..], a, y);
      assert y in ids <==> y == ids[0] || y in ids[1..];
      EffectIdempotent(a, Row(s, y));
    }
  }

  lemma ApplyShrinks(s: Store, id: int, a: Action)
    ensures Shrinks(s, Apply(s, id, a))
  {
    var t := Apply(s, id, a);
    forall y | y in t ensures y in s && t[y].replyTo == s[y].replyTo {
      assert Row(t, y).Some?;
    }
  }

  lemma {:induction false} ApplyAllShrinks(s: Store, ids: seq<int>, a: Action)
    ensures Shrinks(s, ApplyAll(s, ids, a))
    decreases |ids|
  {
    if ids != [] {
      ApplyShrinks(s, ids[0], a);
      ApplyAllShrinks(Apply(s, ids[0], a), ids[1..], a);
      ShrinksTransitive(s, Apply(s, ids[0], a), ApplyAll(s, ids, a));
    }
  }

  // ---------------------------------------------------------------------------
  // The recursion shared by `MoveRecursively` and by `DeleteRecursively` with
  // `deleteLinked`.

  /** Handles every reply of `x` (asked for on the current store), each with
      its own replies first, then calls the procedure on `x`. Returns the new
      store and the ids the procedure was called on, in call order. */
  function Walk(s: Store, x: int, a: Action, h: int -> nat): (r: (Store, seq<int>))
    requires Layered(s, h)
    ensures Shrinks(s, r.0)
    decreases h(x), 1
  {
    var (t, calls) := WalkAll(s, Replies(s, x), x, a, h);
    ShrinksLayered(s, t, h);
    ApplyShrinks(t, x, a);
    ShrinksTransitive(s, t, Apply(t, x, a));
    (Apply(t, x, a), calls + [x])
  }

  /** The `foreach` over a list of replies of `p`, taken once before the loop,
      each handled on the store the previous ones left. */
  function WalkAll(s: Store, ids: seq<int>, p: int, a: Action, h: int -> nat): (r: (Store, seq<int>))
    requires Layered(s, h)
    requires forall c :: c in ids ==> h(c) < h(p)
    ensures Shrinks(s, r.0)
    decreases h(p), 0, |ids|
  {
    if ids == [] then (s, [])
    else
      var (t, first) := Walk(s, ids[0], a, h);
      ShrinksLayered(s, t, h);
      var (u, rest) := WalkAll(t, ids[1..], p, a, h);
      ShrinksTransitive(s, t, u);
      (u, first + rest)
  }

  /** The replies of `p`, once each. */
  predicate RepliesOf(s: Store, ids: seq<int>, p: int) {
    (forall c :: c in ids ==> c in s && s[c].replyTo == Some(p)) && Distinct(ids)
  }

  /** A message in the subtree of one reply is not called while another
      reply's subtree is handled. */
  lemma OutsideSibling(s: Store, h: int -> nat, a: int, b: int, p: int, w: int)
    requires Layered(s, h)
    requires a in s && b in s && a != b
    requires s[a].replyTo == Some(p) && s[b].replyTo == Some(p)
    requires InSub(s, w, b)
    ensures w !in Order(s, a, h)
  {
    OrderCovers(s, a, h);
    assert Anc(s, a, 0) == Some(a) && Anc(s, b, 0) == Some(b);
    SiblingsDisjoint(s, h, a, b, p, w);
  }

  /** Although the store changes under it, the recursion makes the calls of
      the post-order traversal of the original store, and its store is the
      original with those calls applied. */
  lemma {:induction false} WalkFollowsOrder(s: Store, x: int, a: Action, h: int -> nat)
    requires Layered(s, h)
    ensures Walk(s, x, a, h) == (ApplyAll(s, Order(s, x, h), a), Order(s, x, h))
    decreases h(x), 1
  {
    var r := Replies(s, x);
    assert Distinct(r);
    WalkAllFollowsOrder(s, r, x, a, h);
    var o := OrderAll(s, r, x, h);
    ApplyAllAppend(s, o, [x], a);
    assert ApplyAll(ApplyAll(s, o, a), [x], a) == Apply(ApplyAll(s, o, a), x, a);
  }

  lemma {:induction false} WalkAllFollowsOrder(s: Store, ids: seq<int>, p: int, a: Action, h: int -> nat)
    requires Layered(s, h) && RepliesOf(s, ids, p)
    ensures forall c :: c in ids ==> h(c) < h(p)
    ensures WalkAll(s, ids, p, a, h) == (ApplyAll(s, OrderAll(s, ids, p, h), a), OrderAll(s, ids, p, h))
    decreases h(p), 0, |ids|
  {
    forall c | c in ids ensures h(c) < h(p) {
      assert h(c) < h(s[c].replyTo.value);
    }
    if ids != [] {
      var first := ids[0];
      assert first in ids;
      WalkFollowsOrder(s, first, a, h);
      var o := Order(s, first, h);
      var t := ApplyAll(s, o, a);
      var rest := ids[1..];
      RestAfterFirst(s, ids, p, a, h);
      WalkAllFollowsOrder(t, rest, p, a, h);
      ApplyAllAppend(s, o, OrderAll(s, rest, p, h), a);
    }
  }

  /** Once the subtree of the first reply is handled, the other replies are
      still replies, with the same subtrees. */
  lemma RestAfterFirst(s: Store, ids: seq<int>, p: int, a: Action, h: int -> nat)
    requires Layered(s, h) && RepliesOf(s, ids, p) && ids != []
    requires forall c :: c in ids ==> h(c) < h(p)
    ensures Layered(ApplyAll(s, Order(s, ids[0], h), a), h)
    ensures RepliesOf(ApplyAll(s, Order(s, ids[0], h), a), ids[1..], p)
    ensures OrderAll(ApplyAll(s, Order(s, ids[0], h), a), ids[1..], p, h) == OrderAll(s, ids[1..], p, h)
  {
    var first := ids[0];
    var o := Order(s, first, h);
    var t := ApplyAll(s, o, a);
    ApplyAllShrinks(s, o, a);
    ShrinksLayered(s, t, h);
    var rest := ids[1..];
    forall c | c in rest ensures c != first && c in ids {
      var k :| 0 <= k < |rest| && rest[k] == c;
      assert c == ids[k + 1];
    }
    forall c | c in rest ensures c in t && t[c].replyTo == Some(p) {
      assert InSub(s, c, c);
      OutsideSibling(s, h, first, c, p, c);
      ApplyAllRow(s, o, a, c);
    }
    assert Distinct(rest) by {
      forall i, j | 0 <= i < j < |rest| ensures rest[i] != rest[j] {
        assert rest[i] == ids[i + 1] && rest[j] == ids[j + 1];
      }
    }
    forall c, z | c in rest && InSub(s, z, c) ensures SameReplies(s, t, z) {
      SameRepliesAfter(s, first, c, p, a, h, z);
    }
    OrderAllFrame(s, t, rest, p, h);
  }

  /** Handling one reply's subtree leaves the reply links of another reply's
      subtree as they were. */
  lemma SameRepliesAfter(s: Store, first: int, c: int, p: int, a: Action, h: int -> nat, z: int)
    requires Layered(s, h)
    requires first in s && c in s && first != c
    requires s[first].replyTo == Some(p) && s[c].replyTo == Some(p)
    requires InSub(s, z, c)
    ensures SameReplies(s, ApplyAll(s, Order(s, first, h), a), z)
  {
    var o := Order(s, first, h);
    var t := ApplyAll(s, o, a);
    forall w ensures (w in s && s[w].replyTo == Some(z)) <==> (w in t && t[w].replyTo == Some(z)) {
      ApplyAllRow(s, o, a, w);
      if w in s && s[w].replyTo == Some(z) {
        BelowParent(s, w, z, c);
        OutsideSibling(s, h, first, c, p, w);
      }
    }
  }
}

module MessageRepository {
  import opened Text
  import opened ReplyTree
  import opened Messages

  /** The store after a repository operation, the ids the stored procedure
      was called on in call order, and which procedure that was. */
  datatype Outcome = Outcome(store: Store, calls: seq<int>, procedure: Action)

  /** What the recursion does, stated on the original store: every message
      of the subtree of `x` gets the procedure exactly once, every reply
      before the message it replies to, and no other row changes. */
  lemma WalkEffect(s: Store, x: int, a: Action, h: int -> nat)
    requires Layered(s, h)
    ensures forall y :: y in Walk(s, x, a, h).1 <==> InSub(s, y, x)
    ensures Distinct(Walk(s, x, a, h).1) && PostOrder(s, Walk(s, x, a, h).1)
    ensures forall y :: Row(Walk(s, x, a, h).0, y) == if InSub(s, y, x) then Effect(a, Row(s, y)) else Row(s, y)
  {
    WalkFollowsOrder(s, x, a, h);
    OrderCovers(s, x, h);
    OrderDistinct(s, x, h);
    OrderPostOrder(s, x, h);
    forall y ensures Row(Walk(s, x, a, h).0, y) == if InSub(s, y, x) then Effect(a, Row(s, y)) else Row(s, y) {
      ApplyAllRow(s, Order(s, x, h), a, y);
    }
  }

  // ---------------------------------------------------------------------------
  // Move

  /** `MoveRecursively`: the replies' subtrees first, then the message. */
  function MoveRecursively(s: Store, id: int, topic: int, h: int -> nat): Outcome
    requires Layered(s, h)
  {
    var (t, calls) := Walk(s, id, MoveTo(topic), h);
    Outcome(t, calls, MoveTo(topic))
  }

  /** `Move`: the message first; with `moveAll`, then each reply's subtree. */
  function Move(s: Store, id: int, topic: int, moveAll: bool, h: int -> nat): Outcome
    requires Layered(s, h)
  {
    var first := Apply(s, id, MoveTo(topic));
    if !moveAll then Outcome(first, [id], MoveTo(topic))
    else
      ApplyShrinks(s, id, MoveTo(topic));
      ShrinksLayered(s, first, h);
      var (t, calls) := WalkAll(first, Replies(first, id), id, MoveTo(topic), h);
      Outcome(t, [id] + calls, MoveTo(topic))
  }

  /** Two stores with the same ids and reply links have the same subtrees. */
  lemma SameShapeSub(s: Store, t: Store, y: int, x: int)
    requires Shrinks(s, t) && Shrinks(t, s)
    ensures InSub(s, y, x) <==> InSub(t, y, x)
  {
    if Below(s, y, x) {
      var n: nat :| Anc(s, y, n) == Some(x);
      ShrinksAnc(t, s, y, n, x);
    }
    if Below(t, y, x) {
      var n: nat :| Anc(t, y, n) == Some(x);
      ShrinksAnc(s, t, y, n, x);
    }
  }

  /** Moving keeps every row and every reply link. */
  lemma MoveKeepsShape(s: Store, id: int, topic: int)
    ensures Shrinks(s, Apply(s, id, MoveTo(topic))) && Shrinks(Apply(s, id, MoveTo(topic)), s)
  {
    var t := Apply(s, id, MoveTo(topic));
    ApplyShrinks(s, id, MoveTo(topic));
    forall y | y in s ensures y in t && s[y].replyTo == t[y].replyTo {
      assert Row(t, y).Some?;
    }
  }

  /** `MoveRecursively` moves the whole subtree of `id` to `topic` and changes
      nothing else; each message is moved once, after its replies. */
  lemma MoveRecursivelyMovesSubtree(s: Store, id: int, topic: int, h: int -> nat)
    requires Layered(s, h)
    ensures MoveRecursively(s, id, topic, h).store.Keys == s.Keys
    ensures forall y :: y in s ==>
              MoveRecursively(s, id, topic, h).store[y] == if InSub(s, y, id) then s[y].(topic := topic) else s[y]
    ensures forall y :: y in MoveRecursively(s, id, topic, h).calls <==> InSub(s, y, id)
    ensures Distinct(MoveRecursively(s, id, topic, h).calls)
    ensures PostOrder(s, MoveRecursively(s, id, topic, h).calls)
  {
    WalkEffect(s, id, MoveTo(topic), h);
    var t := MoveRecursively(s, id, topic, h).store;
    forall y ensures y in t <==> y in s {
      assert Row(t, y).Some? <==> Row(s, y).Some?;
    }
  }

  /** `Move` moves the message to `topic`; with `moveAll` the whole subtree
      under it follows, and without it every reply keeps its topic. The
      message itself is the first call. */
  lemma MoveMoves(s: Store, id: int, topic: int, moveAll: bool, h: int -> nat)
    requires Layered(s, h)
    ensures Move(s, id, topic, moveAll, h).store.Keys == s.Keys
    ensures forall y :: y in s ==>
              Move(s, id, topic, moveAll, h).store[y]
              == if y == id || (moveAll && Below(s, y, id)) then s[y].(topic := topic) else s[y]
    ensures Move(s, id, topic, moveAll, h).calls[0] == id
    ensures moveAll ==> forall y :: y in Move(s, id, topic, moveAll, h).calls <==> InSub(s, y, id)
    ensures !moveAll ==> Move(s, id, topic, moveAll, h).calls == [id]
  {
    var a := MoveTo(topic);
    var first := Apply(s, id, a);
    MoveKeepsShape(s, id, topic);
    ShrinksLayered(s, first, h);
    var r := Move(s, id, topic, moveAll, h);
    if moveAll {
      var rs := Replies(first, id);
      assert Distinct(rs);
      WalkAllFollowsOrder(first, rs, id, a, h);
      var o := OrderAll(first, rs, id, h);
      OrderCovers(first, id, h);
      forall y ensures y in r.calls <==> InSub(s, y, id) {
        SameShapeSub(s, first, y, id);
        assert y in r.calls <==> y in o + [id];
      }
      forall y ensures Row(r.store, y) == if InSub(s, y, id) then Effect(a, Row(s, y)) else Row(s, y) {
        ApplyAllRow(first, o, a, y);
        EffectIdempotent(a, Row(s, y));
      }
    }
    forall y ensures Row(r.store, y) == if y == id || (moveAll && Below(s, y, id)) then Effect(a, Row(s, y)) else Row(s, y) {
    }
    forall y ensures y in r.store <==> y in s {
      assert Row(r.store, y).Some? <==> Row(s, y).Some?;
    }
    forall y | y in s
      ensures r.store[y] == if y == id || (moveAll && Below(s, y, id)) then s[y].(topic := topic) else s[y]
    {
      assert Row(r.store, y) == Some(r.store[y]);
    }
  }

  // ---------------------------------------------------------------------------
  // Delete

  /** `eraseMessages` picks `message_delete`, otherwise
      `message_deleteundelete` with the moderator flag, reason and action. */
  function DeleteProcedure(moderatorChanged: bool, reason: string, isDeleteAction: int, erase: bool): Action {
    if erase then Erase else SetDeleted(moderatorChanged, reason, isDeleteAction)
  }

  /** `DeleteRecursively`; its `isLinked` argument has no effect and is not
      modelled. With `deleteLinked` it recurses through the replies, passing
      `deleteLinked` and `eraseMessages` on unchanged. */
  function DeleteRecursively(s: Store, id: int, moderatorChanged: bool, reason: string, isDeleteAction: int,
                             deleteLinked: bool, erase: bool, h: int -> nat): Outcome
    requires Layered(s, h)
  {
    var a := DeleteProcedure(moderatorChanged, reason, isDeleteAction, erase);
    if deleteLinked then
      var (t, calls) := Walk(s, id, a, h);
      Outcome(t, calls, a)
    else Outcome(Apply(s, id, a), [id], a)
  }

  /** The six-argument `Delete`. */
  function Delete(s: Store, id: int, moderatorChanged: bool, reason: string, isDeleteAction: int,
                  deleteLinked: bool, erase: bool, h: int -> nat): Outcome
    requires Layered(s, h)
  {
    DeleteRecursively(s, id, moderatorChanged, reason, isDeleteAction, deleteLinked, erase, h)
  }

  /** The five-argument `Delete`, which never erases. */
  function DeleteSoft(s: Store, id: int, moderatorChanged: bool, reason: string, isDeleteAction: int,
                      deleteLinked: bool, h: int -> nat): Outcome
    requires Layered(s, h)
  {
    Delete(s, id, moderatorChanged, reason, isDeleteAction, deleteLinked, false, h)
  }

  /** Which messages a delete reaches: with `deleteLinked` the whole subtree,
      each once and every reply before its parent; otherwise the message
      alone. Exactly those rows get the procedure; every other row stays. */
  lemma DeleteReaches(s: Store, id: int, moderatorChanged: bool, reason: string, isDeleteAction: int,
                      deleteLinked: bool, erase: bool, h: int -> nat)
    requires Layered(s, h)
    ensures deleteLinked ==>
              (forall y ::
                 y in Delete(s, id, moderatorChanged, reason, isDeleteAction, deleteLinked, erase, h).calls <==> InSub(s, y, id))
              && Distinct(Delete(s, id, moderatorChanged, reason, isDeleteAction, deleteLinked, erase, h).calls)
              && PostOrder(s, Delete(s, id, moderatorChanged, reason, isDeleteAction, deleteLinked, erase, h).calls)
    ensures !deleteLinked ==> Delete(s, id, moderatorChanged, reason, isDeleteAction, deleteLinked, erase, h).calls == [id]
    ensures forall y ::
              Row(Delete(s, id, moderatorChanged, reason, isDeleteAction, deleteLinked, erase, h).store, y)
              == if y == id || (deleteLinked && Below(s, y, id))
                 then Effect(DeleteProcedure(moderatorChanged, reason, isDeleteAction, erase), Row(s, y))
                 else Row(s, y)
  {
    var a := DeleteProcedure(moderatorChanged, reason, isDeleteAction, erase);
    if deleteLinked {
      WalkEffect(s, id, a, h);
    }
  }

  /** Hard delete removes exactly the reached rows; soft delete keeps every
      row and marks the reached ones with the action and the reason. */
  lemma DeleteHardOrSoft(s: Store, id: int, moderatorChanged: bool, reason: string, isDeleteAction: int,
                         deleteLinked: bool, erase: bool, h: int -> nat)
    requires Layered(s, h)
    ensures erase ==> forall y ::
              y in Delete(s, id, moderatorChanged, reason, isDeleteAction, deleteLinked, erase, h).store
              <==> y in s && !(y == id || (deleteLinked && Below(s, y, id)))
    ensures !erase ==> Delete(s, id, moderatorChanged, reason, isDeleteAction, deleteLinked, erase, h).store.Keys == s.Keys
    ensures !erase ==> forall y :: y in s && (y == id || (deleteLinked && Below(s, y, id))) ==>
              Delete(s, id, moderatorChanged, reason, isDeleteAction, deleteLinked, erase, h).store[y]
              == s[y].(deleted := isDeleteAction != 0, deleteReason := reason)
  {
    DeleteReaches(s, id, moderatorChanged, reason, isDeleteAction, deleteLinked, erase, h);
    var t := Delete(s, id, moderatorChanged, reason, isDeleteAction, deleteLinked, erase, h).store;
    if !erase {
      forall y ensures y in t <==> y in s {
        assert Row(t, y).Some? <==> Row(s, y).Some?;
      }
      forall y | y in s && (y == id || (deleteLinked && Below(s, y, id)))
        ensures t[y] == s[y].(deleted := isDeleteAction != 0, deleteReason := reason)
      {
        assert Row(t, y) == Some(t[y]);
      }
    } else {
      forall y ensures y in t <==> y in s && !(y == id || (deleteLinked && Below(s, y, id))) {
        assert y in t <==> Row(t, y).Some?;
      }
    }
  }

  /** The five-argument `Delete` never removes a row. */
  lemma DeleteSoftKeepsRows(s: Store, id: int, moderatorChanged: bool, reason: string, isDeleteAction: int,
                            deleteLinked: bool, h: int -> nat)
    requires Layered(s, h)
    ensures DeleteSoft(s, id, moderatorChanged, reason, isDeleteAction, deleteLinked, h).store.Keys == s.Keys
    ensures DeleteSoft(s, id, moderatorChanged, reason, isDeleteAction, deleteLinked, h).procedure.SetDeleted?
  {
    DeleteHardOrSoft(s, id, moderatorChanged, reason, isDeleteAction, deleteLinked, false, h);
  }

  /** No remaining row replies to a message erased so far. */
  predicate NoDangling(t: Store, gone: seq<int>) {
    forall z :: z in t && t[z].replyTo.Some? ==> t[z].replyTo.value !in gone
  }

  /** Because replies are erased before their parent, after every single call
      of a linked hard delete no remaining message replies to an erased one. */
  lemma EraseNeverDangles(s: Store, id: int, h: int -> nat)
    requires Layered(s, h)
    ensures forall k :: 0 <= k <= |Delete(s, id, false, "", 1, true, true, h).calls| ==>
              NoDangling(ApplyAll(s, Delete(s, id, false, "", 1, true, true, h).calls[..k], Erase),
                         Delete(s, id, false, "", 1, true, true, h).calls[..k])
  {
    var o := Delete(s, id, false, "", 1, true, true, h).calls;
    DeleteReaches(s, id, false, "", 1, true, true, h);
    forall k | 0 <= k <= |o| ensures NoDangling(ApplyAll(s, o[..k], Erase), o[..k]) {
      var t := ApplyAll(s, o[..k], Erase);
      assert Closed(s, o[..k]);
      forall z | z in t && t[z].replyTo.Some? ensures t[z].replyTo.value !in o[..k] {
        ApplyAllRow(s, o[..k], Erase, z);
      }
    }
  }

  /** Without `deleteLinked`, erasing a message leaves its replies in place,
      still naming it. */
  lemma UnlinkedEraseOrphans(s: Store, id: int, h: int -> nat, c: int)
    requires Layered(s, h)
    requires c in s && s[c].replyTo == Some(id)
    ensures id !in Delete(s, id, false, "", 1, false, true, h).store
    ensures c in Delete(s, id, false, "", 1, false, true, h).store
    ensures Delete(s, id, false, "", 1, false, true, h).store[c].replyTo == Some(id)
  {
    var t := Delete(s, id, false, "", 1, false, true, h).store;
    assert h(c) < h(id);
    assert Row(t, c) == Row(s, c);
    assert Row(t, id).None?;
  }

  // ---------------------------------------------------------------------------
  // Flags

  /** `UpdateFlags`: sets the `Flags` column of the row with that id. */
  function UpdateFlags(s: Store, id: int, flags: int): (t: Store)
    ensures t.Keys == s.Keys
    ensures id in s ==> t[id].flags == flags
    ensures forall y :: y in s ==> t[y].(flags := s[y].flags) == s[y]
    ensures forall y :: y in s && y != id ==> t[y] == s[y]
  {
    if id in s then s[id := s[id].(flags := flags)] else s
  }

  /** Writing back the old flags undoes the update. */
  lemma UpdateFlagsRestores(s: Store, id: int, flags: int)
    requires id in s
    ensures UpdateFlags(UpdateFlags(s, id, flags), id, s[id].flags) == s
  {
    var t := UpdateFlags(UpdateFlags(s, id, flags), id, s[id].flags);
    assert forall y :: y in s ==> t[y] == s[y];
  }

  // ---------------------------------------------------------------------------
  // A user's messages

  /** The position of `x` in the rows as the database returned them. */
  function IndexOf(db: seq<int>, x: int): (k: nat)
    requires x in db
    ensures k < |db| && db[k] == x
  {
    if db[0] == x then 0 else 1 + IndexOf(db[1..], x)
  }

  /** `OrderByDescending(m => m.Posted)` is a stable sort: a later time comes
      first, and rows posted at the same time keep the order `db` in which
      the database returned them. */
  predicate Before(s: Store, db: seq<int>, a: int, b: int)
    requires a in s && b in s && a in db && b in db
  {
    s[a].posted > s[b].posted || (s[a].posted == s[b].posted && IndexOf(db, a) < IndexOf(db, b))
  }

  predicate Newest(s: Store, db: seq<int>, o: seq<int>)
    requires forall y :: y in o ==> y in s && y in db
  {
    forall i, j :: 0 <= i < j < |o| ==> Before(s, db, o[i], o[j])
  }

  /** One step of the sort. */
  function InsertByPosted(s: Store, db: seq<int>, x: int, o: seq<int>): (r: seq<int>)
    requires x in s && x in db && (forall y :: y in o ==> y in s && y in db) && x !in o && Newest(s, db, o)
    ensures forall y :: y in r <==> y == x || y in o
    ensures |r| == |o| + 1
    ensures Newest(s, db, r)
  {
    if o == [] then [x]
    else if Before(s, db, x, o[0]) then [x] + o
    else
      assert Newest(s, db, o[1..]) by {
        forall i, j | 0 <= i < j < |o[1..]| ensures Before(s, db, o[1..][i], o[1..][j]) {
          assert o[1..][i] == o[i + 1] && o[1..][j] == o[j + 1];
        }
      }
      var rest := InsertByPosted(s, db, x, o[1..]);
      forall k | 0 <= k < |rest| ensures Before(s, db, o[0], rest[k]) {
        assert rest[k] in rest;
        if rest[k] != x {
          var j :| 0 <= j < |o[1..]| && o[1..][j] == rest[k];
          assert o[j + 1] == rest[k];
        }
      }
      [o[0]] + rest
  }

  function SortByPosted(s: Store, db: seq<int>, o: seq<int>): (r: seq<int>)
    requires (forall y :: y in o ==> y in s && y in db) && Distinct(o)
    ensures forall y :: y in r <==> y in o
    ensures |r| == |o|
    ensures Newest(s, db, r)
  {
    if o == [] then []
    else
      assert Distinct(o[1..]) by {
        forall i, j | 0 <= i < j < |o[1..]| ensures o[1..][i] != o[1..][j] {
          assert o[1..][i] == o[i + 1] && o[1..][j] == o[j + 1];
        }
      }
      assert o[0] !in o[1..] by {
        forall j | 0 <= j < |o[1..]| ensures o[1..][j] != o[0] {
          assert o[1..][j] == o[j + 1];
        }
      }
      InsertByPosted(s, db, o[0], SortByPosted(s, db, o[1..]))
  }

  /** `GetAllUserMessages`: `db` is what `Get(m => m.UserID == userId)`
      returns, each of the user's rows once in an order the database chooses;
      the result holds the same rows, newest first, rows posted at the same
      time in the database's order. */
  function GetAllUserMessages(s: Store, userId: int, db: seq<int>): (r: seq<int>)
    requires Distinct(db) && forall y :: y in db <==> y in s && s[y].userId == userId
    ensures forall y :: y in r <==> y in s && s[y].userId == userId
    ensures |r| == |db|
    ensures Newest(s, db, r)
  {
    SortByPosted(s, db, db)
  }

  /** The order is total, so the list is the only one with these messages in
      this order. */
  lemma {:induction false} NewestUnique(s: Store, db: seq<int>, a: seq<int>, b: seq<int>)
    requires (forall y :: y in a ==> y in s && y in db) && (forall y :: y in b ==> y in s && y in db)
    requires Newest(s, db, a) && Newest(s, db, b)
    requires forall y :: y in a <==> y in b
    ensures a == b
    decreases |a|
  {
    if a != [] && b != [] {
      assert b[0] in a && a[0] in b;
      assert a[0] == b[0];
      assert Newest(s, db, a[1..]) by {
        forall i, j | 0 <= i < j < |a[1..]| ensures Before(s, db, a[1..][i], a[1..][j]) {
          assert a[1..][i] == a[i + 1] && a[1..][j] == a[j + 1];
        }
      }
      assert Newest(s, db, b[1..]) by {
        forall i, j | 0 <= i < j < |b[1..]| ensures Before(s, db, b[1..][i], b[1..][j]) {
          assert b[1..][i] == b[i + 1] && b[1..][j] == b[j + 1];
        }
      }
      forall y ensures y in a[1..] <==> y in b[1..] {
        NewestTail(s, db, a, y);
        NewestTail(s, db, b, y);
      }
      NewestUnique(s, db, a[1..], b[1..]);
      assert a == [a[0]] + a[1..] && b == [b[0]] + b[1..];
    } else {
      HeadIsMember(a);
      HeadIsMember(b);
    }
  }

  lemma HeadIsMember(a: seq<int>)
    ensures a == [] || a[0] in a
  {
  }

  /** In a list in this order the head occurs once. */
  lemma NewestTail(s: Store, db: seq<int>, a: seq<int>, y: int)
    requires (forall z :: z in a ==> z in s && z in db) && Newest(s, db, a) && a != []
    ensures y in a[1..] <==> y in a && y != a[0]
  {
    if y in a[1..] {
      var k :| 0 <= k < |a[1..]| && a[1..][k] == y;
      assert a[k + 1] == y && Before(s, db, a[0], a[k + 1]);
    }
    if y in a && y != a[0] {
      var k :| 0 <= k < |a| && a[k] == y;
      assert a[1..][k - 1] == y;
    }
  }

  /** `GetAllUserMessages` is exactly the user's messages, newest first, with
      ties in the database's order: any such list is the result. */
  lemma UserMessagesSpec(s: Store, userId: int, db: seq<int>, o: seq<int>)
    requires Distinct(db) && forall y :: y in db <==> y in s && s[y].userId == userId
    requires forall y :: y in o <==> y in s && s[y].userId == userId
    requires Newest(s, db, o)
    ensures GetAllUserMessages(s, userId, db) == o
  {
    NewestUnique(s, db, GetAllUserMessages(s, userId, db), o);
  }

  /** Rows posted at the same time come out in the database's order. */
  lemma TiesKeepDatabaseOrder(s: Store, userId: int, db: seq<int>, p: nat, q: nat)
    requires Distinct(db) && forall y :: y in db <==> y in s && s[y].userId == userId
    requires p < q < |db| && db[p] in s && db[q] in s && s[db[p]].posted == s[db[q]].posted
    ensures var r := GetAllUserMessages(s, userId, db);
      exists i, j :: 0 <= i < j < |r| && r[i] == db[p] && r[j] == db[q]
  {
    var r := GetAllUserMessages(s, userId, db);
    assert db[p] in r && db[q] in r;
    var i :| 0 <= i < |r| && r[i] == db[p];
    var j :| 0 <= j < |r| && r[j] == db[q];
    DistinctIndex(db, p, db[p]);
    DistinctIndex(db, q, db[q]);
    assert db[p] != db[q];
    var lo, hi := if i < j then i else j, if i < j then j else i;
    assert Before(s, db, r[lo], r[hi]);
  }

  /** In a list without repeats, an element's position is its index. */
  lemma DistinctIndex(db: seq<int>, p: nat, x: int)
    requires Distinct(db) && p < |db| && db[p] == x
    ensures IndexOf(db, x) == p
  {
  }

  // ---------------------------------------------------------------------------
  // Unread messages

  /** `DateTime.MinValue`, in ticks. */
  const MinDateTime: int := 0

  /** `FindUnreadAsDataTable` replaces a last-read time of `DateTime.MinValue`
      by the earliest time the database can store (`sqlMinTime`) before it
      queries. */
  function ClampLastRead(lastRead: int, sqlMinTime: int): (r: int)
    ensures r == MinDateTime ==> sqlMinTime == MinDateTime
    ensures lastRead != MinDateTime ==> r == lastRead
  {
    if lastRead == MinDateTime then sqlMinTime else lastRead
  }
}
