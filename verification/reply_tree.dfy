/**
 The message store as the repository sees it: a finite map from message id to
 the row of the `Message` table, where each row may name the message it replies
 to. Replies form a forest when the reply graph has no cycle; the recursive
 move and delete of the repository walk that forest.
 */
module ReplyTree {
  import opened Text

  /** The columns of a message row the repository reads or writes. */
  datatype Message = Message(
    replyTo: Option<int>,
    topic: int,
    userId: int,
    posted: int,
    flags: int,
    deleted: bool,
    deleteReason: string)

  type Store = map<int, Message>

  /** The row of `id`, if any. */
  function Row(s: Store, id: int): Option<Message> {
    if id in s then Some(s[id]) else None
  }

  /** The `n`-th message up the reply chain from `x`: `x` itself for `n == 0`,
      and each step follows the `ReplyTo` of a stored message. */
  function Anc(s: Store, x: int, n: nat): Option<int>
    decreases n
  {
    if n == 0 then Some(x)
    else if x in s && s[x].replyTo.Some? then Anc(s, s[x].replyTo.value, n - 1)
    else None
  }

  /** `y` is stored and lies in the reply tree below `root` (or is `root`). */
  ghost predicate Below(s: Store, y: int, root: int) {
    y in s && exists n: nat :: Anc(s, y, n) == Some(root)
  }

  /** A height for every id that grows from a reply to the message it replies
      to. Such a height exists exactly when no chain of replies comes back to
      where it started; it also bounds how deep a recursive walk can go. */
  predicate Layered(s: Store, h: int -> nat) {
    forall y :: y in s && s[y].replyTo.Some? ==> h(y) < h(s[y].replyTo.value)
  }

  /** Going up `n >= 1` steps from a stored message reaches a strictly greater
      height. */
  lemma {:induction false} AncHigher(s: Store, h: int -> nat, y: int, n: nat, z: int)
    requires Layered(s, h) && n >= 1 && Anc(s, y, n) == Some(z)
    ensures h(y) + n <= h(z)
    decreases n
  {
    var p := s[y].replyTo.value;
    if n > 1 {
      AncHigher(s, h, p, n - 1, z);
    }
  }

  /** Hence a layered store has no cycle of replies. */
  lemma LayeredAcyclic(s: Store, h: int -> nat, y: int, n: nat)
    requires Layered(s, h) && n >= 1
    ensures Anc(s, y, n) != Some(y)
  {
    if Anc(s, y, n) == Some(y) {
      AncHigher(s, h, y, n, y);
    }
  }

  /** One more step up from the parent. */
  lemma {:induction false} AncStep(s: Store, y: int, n: nat)
    requires y in s && s[y].replyTo.Some?
    ensures Anc(s, y, n + 1) == Anc(s, s[y].replyTo.value, n)
  {
  }

  /** Going up `n` and then `m` steps is going up `n + m` steps. */
  lemma {:induction false} AncCompose(s: Store, y: int, n: nat, z: int, m: nat)
    requires Anc(s, y, n) == Some(z)
    ensures Anc(s, y, n + m) == Anc(s, z, m)
    decreases n
  {
    if n > 0 {
      AncCompose(s, s[y].replyTo.value, n - 1, z, m);
    }
  }

  /** `t` keeps some of the rows of `s`, each with the same `ReplyTo`. */
  predicate Shrinks(s: Store, t: Store) {
    forall y :: y in t ==> y in s && t[y].replyTo == s[y].replyTo
  }

  lemma ShrinksTransitive(s: Store, t: Store, u: Store)
    requires Shrinks(s, t) && Shrinks(t, u)
    ensures Shrinks(s, u)
  {
  }

  lemma ShrinksLayered(s: Store, t: Store, h: int -> nat)
    requires Layered(s, h) && Shrinks(s, t)
    ensures Layered(t, h)
  {
  }

  /** A reply chain in the smaller store is one in the larger. */
  lemma {:induction false} ShrinksAnc(s: Store, t: Store, y: int, n: nat, z: int)
    requires Shrinks(s, t) && Anc(t, y, n) == Some(z)
    ensures Anc(s, y, n) == Some(z)
    decreases n
  {
    if n > 0 {
      ShrinksAnc(s, t, t[y].replyTo.value, n - 1, z);
    }
  }

  // ---------------------------------------------------------------------------
  // Replies, in ascending id order.

  /** A set that is not empty has an element. */
  lemma NonEmptyHasElement(xs: set<int>)
    requires xs != {}
    ensures exists x :: x in xs
  {
    if forall y :: y !in xs {
      assert false;
    }
  }

  /** A finite set of ids that is not empty has a least element. */
  lemma MinExists(xs: set<int>)
    requires xs != {}
    ensures exists m :: m in xs && forall y :: y in xs ==> m <= y
    decreases |xs|
  {
    NonEmptyHasElement(xs);
    var x :| x in xs;
    var rest := xs - {x};
    if rest != {} {
      MinExists(rest);
      var m :| m in rest && forall y :: y in rest ==> m <= y;
      var least := if x < m then x else m;
      forall y | y in xs ensures least <= y {
        if y != x {
          assert y in rest;
        }
      }
      assert least in xs;
    } else {
      forall y | y in xs ensures x <= y {
        assert y == x || y in rest;
      }
    }
  }

  /** The ids of a set in ascending order. */
  function SortedIds(xs: set<int>): (r: seq<int>)
    ensures forall y :: y in r <==> y in xs
    ensures forall i, j :: 0 <= i < j < |r| ==> r[i] < r[j]
    decreases |xs|
  {
    if xs == {} then []
    else
      MinExists(xs);
      var m :| m in xs && forall y :: y in xs ==> m <= y;
      var rest := SortedIds(xs - {m});
      SortedIdsCons(xs, m, rest);
      [m] + rest
  }

  lemma SortedIdsCons(xs: set<int>, m: int, rest: seq<int>)
    requires m in xs && forall y :: y in xs ==> m <= y
    requires forall y :: y in rest <==> y in xs - {m}
    requires forall i, j :: 0 <= i < j < |rest| ==> rest[i] < rest[j]
    ensures forall y :: y in [m] + rest <==> y in xs
    ensures forall i, j :: 0 <= i < j < |[m] + rest| ==> ([m] + rest)[i] < ([m] + rest)[j]
  {
    var r := [m] + rest;
    forall i, j | 0 <= i < j < |r| ensures r[i] < r[j] {
      assert r[j] == rest[j - 1];
      assert r[j] in xs - {m};
      if i > 0 {
        assert r[i] == rest[i - 1];
      }
    }
  }

  /** `repository.Get(m => m.ReplyTo == id)`: the stored replies of `id`. The
      database gives no order; the model takes ascending ids. */
  function Replies(s: Store, id: int): (r: seq<int>)
    ensures forall y :: y in r <==> y in s && s[y].replyTo == Some(id)
    ensures forall i, j :: 0 <= i < j < |r| ==> r[i] < r[j]
  {
    SortedIds(set y | y in s && s[y].replyTo == Some(id))
  }

  // ---------------------------------------------------------------------------
  // More facts about reply chains.

  /** A chain that goes up `n` steps passes every shorter length on the way. */
  lemma {:induction false} AncSplit(s: Store, y: int, n: nat, m: nat)
    requires m <= n && Anc(s, y, n).Some?
    ensures Anc(s, y, m).Some? && Anc(s, y, n) == Anc(s, Anc(s, y, m).value, n - m)
    decreases m
  {
    if m > 0 {
      AncSplit(s, s[y].replyTo.value, n - 1, m - 1);
    }
  }

  /** Heights never go down along a chain. */
  lemma AncHeight(s: Store, h: int -> nat, y: int, n: nat, z: int)
    requires Layered(s, h) && Anc(s, y, n) == Some(z)
    ensures h(y) <= h(z)
  {
    if n > 0 {
      AncHigher(s, h, y, n, z);
    }
  }

  /** `y` lies in the subtree of `x`, the root included even when unstored. */
  ghost predicate InSub(s: Store, y: int, x: int) {
    y == x || Below(s, y, x)
  }

  /** A message strictly below `x` lies below one of the replies of `x`. */
  lemma BelowStep(s: Store, y: int, x: int)
    requires Below(s, y, x) && y != x
    ensures exists c :: c in s && s[c].replyTo == Some(x) && Below(s, y, c)
  {
    var n: nat :| Anc(s, y, n) == Some(x);
    assert n >= 1;
    AncSplit(s, y, n, n - 1);
    var c := Anc(s, y, n - 1).value;
    assert Anc(s, c, 1) == Some(x);
    assert Below(s, y, c);
  }

  /** What lies below a reply of `x` lies below `x`. */
  lemma BelowChild(s: Store, y: int, c: int, x: int)
    requires c in s && s[c].replyTo == Some(x) && Below(s, y, c)
    ensures Below(s, y, x)
  {
    var n: nat :| Anc(s, y, n) == Some(c);
    AncCompose(s, y, n, c, 1);
    assert Anc(s, y, n + 1) == Some(x);
  }

  /** In a layered store, the subtrees of two different replies of the same
      message share no message. */
  lemma SiblingsDisjoint(s: Store, h: int -> nat, a: int, b: int, p: int, y: int)
    requires Layered(s, h)
    requires a in s && b in s && a != b
    requires s[a].replyTo == Some(p) && s[b].replyTo == Some(p)
    ensures !(Below(s, y, a) && Below(s, y, b))
  {
    if Below(s, y, a) && Below(s, y, b) {
      var n: nat :| Anc(s, y, n) == Some(a);
      var m: nat :| Anc(s, y, m) == Some(b);
      if n <= m {
        SiblingsApart(s, h, a, b, p, y, n, m);
      } else {
        SiblingsApart(s, h, b, a, p, y, m, n);
      }
      assert false;
    }
  }

  /** Two messages on the chain above `y`, `a` no higher than `b`: either they
      are the same, or `b` lies at or above the parent `p` of `a`, so `b` is
      no lower than `p`. */
  lemma SiblingsApart(s: Store, h: int -> nat, a: int, b: int, p: int, y: int, n: nat, m: nat)
    requires Layered(s, h)
    requires a in s && s[a].replyTo == Some(p)
    requires n <= m && Anc(s, y, n) == Some(a) && Anc(s, y, m) == Some(b)
    ensures a == b || h(p) <= h(b)
  {
    AncSplit(s, y, m, n);
    assert Anc(s, a, m - n) == Some(b);
    if m > n {
      AncStep(s, a, m - n - 1);
      AncHeight(s, h, p, m - n - 1, b);
    }
  }

  // ---------------------------------------------------------------------------
  // The post-order traversal of a subtree, on a store that does not change.

  /** The subtrees of the replies of `x` in ascending id order, each in
      post-order, then `x` itself. */
  function Order(s: Store, x: int, h: int -> nat): seq<int>
    requires Layered(s, h)
    decreases h(x), 1
  {
    OrderAll(s, Replies(s, x), x, h) + [x]
  }

  /** The post-order traversals of the subtrees of `ids`, one after another. */
  function OrderAll(s: Store, ids: seq<int>, p: int, h: int -> nat): seq<int>
    requires Layered(s, h)
    requires forall c :: c in ids ==> h(c) < h(p)
    decreases h(p), 0, |ids|
  {
    if ids == [] then []
    else Order(s, ids[0], h) + OrderAll(s, ids[1..], p, h)
  }

  /** A reply of a message in the subtree of `x` lies below `x`. */
  lemma BelowParent(s: Store, z: int, y: int, x: int)
    requires z in s && s[z].replyTo == Some(y) && InSub(s, y, x)
    ensures Below(s, z, x)
  {
    if y == x {
      assert Anc(s, z, 1) == Some(x);
    } else {
      var n: nat :| Anc(s, y, n) == Some(x);
      AncStep(s, z, n);
      assert Anc(s, z, n + 1) == Some(x);
    }
  }

  /** The traversal visits exactly the subtree of `x`. */
  lemma {:induction false} OrderCovers(s: Store, x: int, h: int -> nat)
    requires Layered(s, h)
    ensures forall y :: y in Order(s, x, h) <==> InSub(s, y, x)
    decreases h(x), 1
  {
    var r := Replies(s, x);
    OrderAllCovers(s, r, x, h);
    forall y ensures y in Order(s, x, h) <==> InSub(s, y, x) {
      if y in OrderAll(s, r, x, h) {
        var c :| c in r && InSub(s, y, c);
        assert Anc(s, c, 0) == Some(c);
        BelowChild(s, y, c, x);
      }
      if InSub(s, y, x) && y != x {
        BelowStep(s, y, x);
        var c :| c in s && s[c].replyTo == Some(x) && Below(s, y, c);
        assert c in r;
      }
    }
  }

  lemma {:induction false} OrderAllCovers(s: Store, ids: seq<int>, p: int, h: int -> nat)
    requires Layered(s, h)
    requires forall c :: c in ids ==> h(c) < h(p)
    ensures forall y :: y in OrderAll(s, ids, p, h) <==> exists c :: c in ids && InSub(s, y, c)
    decreases h(p), 0, |ids|
  {
    if ids != [] {
      OrderCovers(s, ids[0], h);
      OrderAllCovers(s, ids[1..], p, h);
      forall y | exists c :: c in ids && InSub(s, y, c)
        ensures y in OrderAll(s, ids, p, h)
      {
        var c :| c in ids && InSub(s, y, c);
        if c != ids[0] {
          assert c in ids[1..];
        }
      }
    }
  }

  /** No id occurs twice. */
  predicate Distinct(o: seq<int>) {
    forall i, j :: 0 <= i < j < |o| ==> o[i] != o[j]
  }

  lemma DistinctAppend(a: seq<int>, b: seq<int>)
    requires Distinct(a) && Distinct(b)
    requires forall y :: y in a ==> y !in b
    ensures Distinct(a + b)
  {
    forall i, j | 0 <= i < j < |a + b| ensures (a + b)[i] != (a + b)[j] {
      if j >= |a| && i < |a| {
        assert (a + b)[i] in a && (a + b)[j] in b;
      }
    }
  }

  /** Every message of the subtree is visited exactly once. */
  lemma {:induction false} OrderDistinct(s: Store, x: int, h: int -> nat)
    requires Layered(s, h)
    ensures Distinct(Order(s, x, h))
    decreases h(x), 1
  {
    var r := Replies(s, x);
    OrderAllDistinct(s, r, x, h);
    RootAfterSubtrees(s, r, x, h);
    DistinctAppend(OrderAll(s, r, x, h), [x]);
  }

  /** A message lies in no subtree of a message below it. */
  lemma RootAfterSubtrees(s: Store, ids: seq<int>, p: int, h: int -> nat)
    requires Layered(s, h)
    requires forall c :: c in ids ==> h(c) < h(p)
    ensures forall y :: y in OrderAll(s, ids, p, h) ==> y !in [p]
  {
    OrderAllCovers(s, ids, p, h);
    if p in OrderAll(s, ids, p, h) {
      var c :| c in ids && InSub(s, p, c);
      InSubHeight(s, h, p, c);
    }
  }

  lemma InSubHeight(s: Store, h: int -> nat, y: int, c: int)
    requires Layered(s, h) && InSub(s, y, c)
    ensures h(y) <= h(c)
  {
    if y != c {
      var n: nat :| Anc(s, y, n) == Some(c);
      AncHeight(s, h, y, n, c);
    }
  }

  lemma {:induction false} OrderAllDistinct(s: Store, ids: seq<int>, p: int, h: int -> nat)
    requires Layered(s, h)
    requires forall c :: c in ids ==> c in s && s[c].replyTo == Some(p)
    requires Distinct(ids)
    ensures Distinct(OrderAll(s, ids, p, h))
    decreases h(p), 0, |ids|
  {
    if ids != [] {
      var a := ids[0];
      assert Distinct(ids[1..]) by {
        forall i, j | 0 <= i < j < |ids[1..]| ensures ids[1..][i] != ids[1..][j] {
          assert ids[1..][i] == ids[i + 1] && ids[1..][j] == ids[j + 1];
        }
      }
      assert a in ids;
      assert h(a) < h(s[a].replyTo.value);
      OrderDistinct(s, a, h);
      OrderAllDistinct(s, ids[1..], p, h);
      OrderCovers(s, a, h);
      OrderAllCovers(s, ids[1..], p, h);
      forall y | y in Order(s, a, h) ensures y !in OrderAll(s, ids[1..], p, h) {
        if y in OrderAll(s, ids[1..], p, h) {
          var b :| b in ids[1..] && InSub(s, y, b);
          var k :| 0 <= k < |ids[1..]| && ids[1..][k] == b;
          assert b == ids[k + 1] && a != b;
          assert Anc(s, a, 0) == Some(a) && Anc(s, b, 0) == Some(b);
          SiblingsDisjoint(s, h, a, b, p, y);
          assert false;
        }
      }
      DistinctAppend(Order(s, a, h), OrderAll(s, ids[1..], p, h));
    }
  }

  /** Every stored reply of a message in `P` is in `P` as well. */
  predicate Closed(s: Store, P: seq<int>) {
    forall y, z :: y in P && z in s && s[z].replyTo == Some(y) ==> z in P
  }

  /** Every prefix is closed: no message comes before any of its replies. */
  predicate PostOrder(s: Store, o: seq<int>) {
    forall k :: 0 <= k <= |o| ==> Closed(s, o[..k])
  }

  lemma ClosedAppend(s: Store, a: seq<int>, b: seq<int>)
    requires Closed(s, a) && Closed(s, b)
    ensures Closed(s, a + b)
  {
  }

  lemma PostOrderAppend(s: Store, a: seq<int>, b: seq<int>)
    requires PostOrder(s, a) && Closed(s, a) && PostOrder(s, b)
    ensures PostOrder(s, a + b)
  {
    forall k | 0 <= k <= |a + b| ensures Closed(s, (a + b)[..k]) {
      if k <= |a| {
        assert (a + b)[..k] == a[..k];
      } else {
        assert (a + b)[..k] == a + b[..k - |a|];
        assert Closed(s, b[..k - |a|]);
        ClosedAppend(s, a, b[..k - |a|]);
      }
    }
  }

  /** The whole traversal is closed, since it is the whole subtree. */
  lemma OrderClosed(s: Store, x: int, h: int -> nat)
    requires Layered(s, h)
    ensures Closed(s, Order(s, x, h))
  {
    OrderCovers(s, x, h);
    forall y, z | y in Order(s, x, h) && z in s && s[z].replyTo == Some(y)
      ensures z in Order(s, x, h)
    {
      BelowParent(s, z, y, x);
    }
  }

  /** The traversal handles every reply before the message it replies to. */
  lemma {:induction false} OrderPostOrder(s: Store, x: int, h: int -> nat)
    requires Layered(s, h)
    ensures PostOrder(s, Order(s, x, h))
    decreases h(x), 1
  {
    var a := OrderAll(s, Replies(s, x), x, h);
    OrderAllPostOrder(s, Replies(s, x), x, h);
    OrderClosed(s, x, h);
    forall k | 0 <= k <= |a + [x]| ensures Closed(s, (a + [x])[..k]) {
      if k <= |a| {
        assert (a + [x])[..k] == a[..k];
      } else {
        assert (a + [x])[..k] == a + [x];
      }
    }
  }

  lemma {:induction false} OrderAllPostOrder(s: Store, ids: seq<int>, p: int, h: int -> nat)
    requires Layered(s, h)
    requires forall c :: c in ids ==> h(c) < h(p)
    ensures PostOrder(s, OrderAll(s, ids, p, h))
    decreases h(p), 0, |ids|
  {
    if ids == [] {
      var e: seq<int> := [];
      assert forall k :: 0 <= k <= 0 ==> e[..k] == e;
    } else {
      OrderPostOrder(s, ids[0], h);
      OrderClosed(s, ids[0], h);
      OrderAllPostOrder(s, ids[1..], p, h);
      PostOrderAppend(s, Order(s, ids[0], h), OrderAll(s, ids[1..], p, h));
    }
  }

  /** In a post-order without repeats, a reply sits at a smaller index than
      the message it replies to. */
  lemma PostOrderIndex(s: Store, h: int -> nat, o: seq<int>)
    requires Layered(s, h) && PostOrder(s, o) && Distinct(o)
    ensures forall i, j :: 0 <= i < |o| && 0 <= j < |o| && o[i] in s && s[o[i]].replyTo == Some(o[j]) ==> i < j
  {
    forall i, j | 0 <= i < |o| && 0 <= j < |o| && o[i] in s && s[o[i]].replyTo == Some(o[j])
      ensures i < j
    {
      assert Closed(s, o[..j + 1]);
      assert o[j] == o[..j + 1][j];
      assert o[i] in o[..j + 1];
      var m :| 0 <= m <= j && o[..j + 1][m] == o[i];
      assert o[m] == o[i];
      assert i == m;
      assert o[i] != o[j];
    }
  }

  /** Handling the subtree of `x`, each message once, replies first. */
  lemma OrderRepliesFirst(s: Store, x: int, h: int -> nat)
    requires Layered(s, h)
    ensures forall i, j ::
              (0 <= i < |Order(s, x, h)| && 0 <= j < |Order(s, x, h)|
               && Order(s, x, h)[i] in s && s[Order(s, x, h)[i]].replyTo == Some(Order(s, x, h)[j])) ==> i < j
  {
    OrderPostOrder(s, x, h);
    OrderDistinct(s, x, h);
    PostOrderIndex(s, h, Order(s, x, h));
  }

  // ---------------------------------------------------------------------------
  // The traversal only looks at reply links inside the subtree.

  /** `z` has the same stored replies in `s` and in `t`. */
  ghost predicate SameReplies(s: Store, t: Store, z: int) {
    forall c :: (c in s && s[c].replyTo == Some(z)) <==> (c in t && t[c].replyTo == Some(z))
  }

  lemma RepliesSame(s: Store, t: Store, z: int)
    requires SameReplies(s, t, z)
    ensures Replies(s, z) == Replies(t, z)
  {
    var a := set y | y in s && s[y].replyTo == Some(z);
    var b := set y | y in t && t[y].replyTo == Some(z);
    forall y ensures y in a <==> y in b {
      assert (y in s && s[y].replyTo == Some(z)) <==> (y in t && t[y].replyTo == Some(z));
    }
    assert a == b;
  }

  /** Two stores whose reply links agree inside the subtree of `x` give the
      same traversal of it. */
  lemma {:induction false} OrderFrame(s: Store, t: Store, x: int, h: int -> nat)
    requires Layered(s, h) && Layered(t, h)
    requires forall z :: InSub(s, z, x) ==> SameReplies(s, t, z)
    ensures Order(s, x, h) == Order(t, x, h)
    decreases h(x), 1
  {
    assert InSub(s, x, x);
    RepliesSame(s, t, x);
    var r := Replies(s, x);
    forall c, z | c in r && InSub(s, z, c) ensures SameReplies(s, t, z) {
      if z == c {
        BelowParent(s, c, x, x);
      } else {
        BelowChild(s, z, c, x);
      }
    }
    OrderAllFrame(s, t, r, x, h);
  }

  lemma {:induction false} OrderAllFrame(s: Store, t: Store, ids: seq<int>, p: int, h: int -> nat)
    requires Layered(s, h) && Layered(t, h)
    requires forall c :: c in ids ==> h(c) < h(p)
    requires forall c, z :: c in ids && InSub(s, z, c) ==> SameReplies(s, t, z)
    ensures OrderAll(s, ids, p, h) == OrderAll(t, ids, p, h)
    decreases h(p), 0, |ids|
  {
    if ids != [] {
      assert ids[0] in ids;
      OrderFrame(s, t, ids[0], h);
      OrderAllFrame(s, t, ids[1..], p, h);
    }
  }
}
