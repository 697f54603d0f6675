/**
 Editing a string at a list of non-overlapping places. The message formatter
 does this by walking its regular-expression matches from the last to the
 first and calling `String.Insert` or `String.Remove` at each, so that the
 indices of the matches still to come stay valid (`RepairHtml`,
 `SurroundWordList`, `RemoveHtmlByList`).

 `ApplyRightToLeft` is that loop; `Splice` is the same edit read from left to
 right; `Undo` lists the edits that turn the result back into the input.
 */
module Edits {

  /** Replace the `len` characters at `start` by `repl`. An insertion has
      `len == 0`, a removal `repl == []`. */
  datatype Edit = Edit(start: nat, len: nat, repl: string)

  function End(e: Edit): nat {
    e.start + e.len
  }

  /** The edits lie in `[pos, n]`, in order and without overlapping. */
  predicate Sorted(edits: seq<Edit>, pos: nat, n: nat) {
    edits == [] || (pos <= edits[0].start && End(edits[0]) <= n && Sorted(edits[1..], End(edits[0]), n))
  }

  /** The edited text from position `pos` on, read from left to right. */
  function Splice(t: string, edits: seq<Edit>, pos: nat): string
    requires pos <= |t| && Sorted(edits, pos, |t|)
  {
    if edits == [] then t[pos..]
    else t[pos..edits[0].start] + edits[0].repl + Splice(t, edits[1..], End(edits[0]))
  }

  /** What the edits add to the length of the text. */
  function Growth(edits: seq<Edit>): int {
    if edits == [] then 0 else |edits[0].repl| - edits[0].len + Growth(edits[1..])
  }

  lemma {:induction false} SpliceLength(t: string, edits: seq<Edit>, pos: nat)
    requires pos <= |t| && Sorted(edits, pos, |t|)
    ensures |Splice(t, edits, pos)| == |t| - pos + Growth(edits)
  {
    if edits != [] {
      SpliceLength(t, edits[1..], End(edits[0]));
    }
  }

  /** Where the edits from the `k`-th on begin: the start of the `k`-th edit, or
      the end of the text when there is none. */
  function Front(edits: seq<Edit>, k: nat, n: nat): nat
    requires k <= |edits|
  {
    if k < |edits| then edits[k].start else n
  }

  lemma {:induction false} SortedFrom(edits: seq<Edit>, pos: nat, n: nat, k: nat)
    requires Sorted(edits, pos, n) && k < |edits|
    ensures Sorted(edits[k..], edits[k].start, n)
    ensures End(edits[k]) <= Front(edits, k + 1, n) <= n
  {
    if k > 0 {
      SortedFrom(edits[1..], End(edits[0]), n, k - 1);
      assert edits[1..][k - 1..] == edits[k..];
    } else if |edits| > 1 {
      assert edits[1..][0] == edits[1];
    }
  }

  /** The unedited stretch before the first edit can be split off anywhere. */
  lemma SpliceShift(t: string, edits: seq<Edit>, p: nat, q: nat)
    requires p <= q <= |t| && Sorted(edits, q, |t|)
    ensures Sorted(edits, p, |t|)
    ensures Splice(t, edits, p) == t[p..q] + Splice(t, edits, q)
  {
    if edits != [] {
      var e := edits[0];
      SliceSplit(t, p, q, e.start);
      Regroup4(t[p..q], t[q..e.start], e.repl, Splice(t, edits[1..], End(e)));
    } else {
      SliceSplit(t, p, q, |t|);
    }
  }

  /** A slice splits at any point inside it. */
  lemma SliceSplit<T>(t: seq<T>, p: nat, q: nat, r: nat)
    requires p <= q <= r <= |t|
    ensures t[p..r] == t[p..q] + t[q..r]
  {
  }

  lemma Regroup4<T>(a: seq<T>, b: seq<T>, c: seq<T>, d: seq<T>)
    ensures (a + b) + c + d == a + (b + c + d)
  {
  }

  /** What the text holds once the edits from the `k`-th on are applied. */
  predicate AppliedFrom(t: string, edits: seq<Edit>, k: nat, r: string)
    requires k <= |edits|
  {
    Front(edits, k, |t|) <= |t|
    && Sorted(edits[k..], Front(edits, k, |t|), |t|)
    && r == t[..Front(edits, k, |t|)] + Splice(t, edits[k..], Front(edits, k, |t|))
  }

  /** Cutting a concatenation inside its first part. */
  lemma CutInFirst<T>(a: seq<T>, b: seq<T>, i: nat, j: nat)
    requires i <= j <= |a|
    ensures (a + b)[..i] == a[..i]
    ensures (a + b)[j..] == a[j..] + b
  {
  }

  lemma Regroup<T>(a: seq<T>, empty: seq<T>, b: seq<T>, c: seq<T>)
    requires empty == []
    ensures a + (empty + b + c) == a + b + c
  {
  }

  /** One turn of the right-to-left loop: applying the edit before the
      `k`-th keeps the text in step with `Splice`. */
  lemma ApplyStep(t: string, edits: seq<Edit>, k: nat, r: string)
    requires Sorted(edits, 0, |t|) && 0 < k <= |edits| && AppliedFrom(t, edits, k, r)
    ensures edits[k - 1].start <= End(edits[k - 1]) <= |r|
    ensures AppliedFrom(t, edits, k - 1, r[..edits[k - 1].start] + edits[k - 1].repl + r[End(edits[k - 1])..])
  {
    var e := edits[k - 1];
    SortedFrom(edits, 0, |t|, k - 1);
    var f := Front(edits, k, |t|);
    var x := Splice(t, edits[k..], f);
    assert r == t[..f] + x;
    SpliceShift(t, edits[k..], End(e), f);
    assert edits[k - 1..] == [e] + edits[k..];
    SpliceCons(t, e, edits[k..], e.start);
    CutInFirst(t[..f], x, e.start, End(e));
    assert t[..f][..e.start] == t[..e.start];
    assert t[..f][End(e)..] == t[End(e)..f];
    assert Front(edits, k - 1, |t|) == e.start;
    var tail := t[End(e)..f] + x;
    Regroup(t[..e.start], t[e.start..e.start], e.repl, tail);
  }

  /** The edits applied from the last to the first, each with one `Insert` /
      `Remove`-style replacement on the current text. */
  method ApplyRightToLeft(t: string, edits: seq<Edit>) returns (r: string)
    requires Sorted(edits, 0, |t|)
    ensures r == Splice(t, edits, 0)
  {
    r := t;
    var k := |edits|;
    assert edits[k..] == [];
    while k > 0
      invariant 0 <= k <= |edits|
      invariant AppliedFrom(t, edits, k, r)
    {
      var e := edits[k - 1];
      ApplyStep(t, edits, k, r);
      r := r[..e.start] + e.repl + r[End(e)..];
      k := k - 1;
    }
    assert edits[0..] == edits;
    assert t[..Front(edits, 0, |t|)] == t[0..Front(edits, 0, |t|)];
    SpliceShift(t, edits, 0, Front(edits, 0, |t|));
  }

  /** The edits that undo `edits`: each puts the replaced text back in place of
      the replacement, at the replacement's position in the edited text, which
      begins at `base`. */
  function Undo(t: string, edits: seq<Edit>, pos: nat, base: nat): seq<Edit>
    requires pos <= |t| && Sorted(edits, pos, |t|)
  {
    if edits == [] then []
    else
      var e := edits[0];
      var at := base + (e.start - pos);
      [Edit(at, |e.repl|, t[e.start..End(e)])] + Undo(t, edits[1..], End(e), at + |e.repl|)
  }

  /** The first undo edit and the rest. */
  lemma UndoCons(t: string, edits: seq<Edit>, pos: nat, base: nat, at: nat, next: nat)
    requires pos <= |t| && Sorted(edits, pos, |t|) && edits != []
    requires at == base + (edits[0].start - pos) && next == at + |edits[0].repl|
    ensures Undo(t, edits, pos, base)
      == [Edit(at, |edits[0].repl|, t[edits[0].start..End(edits[0])])] + Undo(t, edits[1..], End(edits[0]), next)
  {
  }

  lemma SortedCons(e: Edit, rest: seq<Edit>, pos: nat, n: nat)
    requires pos <= e.start && End(e) <= n && Sorted(rest, End(e), n)
    ensures Sorted([e] + rest, pos, n)
  {
    assert ([e] + rest)[0] == e && ([e] + rest)[1..] == rest;
  }

  /** One step of `Splice` on a list given as its first edit and the rest. */
  lemma SpliceCons(t: string, e: Edit, rest: seq<Edit>, pos: nat)
    requires pos <= e.start && End(e) <= |t| && Sorted(rest, End(e), |t|)
    ensures Sorted([e] + rest, pos, |t|)
    ensures Splice(t, [e] + rest, pos) == t[pos..e.start] + e.repl + Splice(t, rest, End(e))
  {
    SortedCons(e, rest, pos, |t|);
    assert ([e] + rest)[0] == e && ([e] + rest)[1..] == rest;
  }

  /** Undoing the edits gives back the text they were applied to. */
  lemma {:induction false} UndoSplice(u: string, t: string, edits: seq<Edit>, pos: nat)
    requires pos <= |t| && Sorted(edits, pos, |t|)
    ensures Sorted(Undo(t, edits, pos, |u|), |u|, |u + Splice(t, edits, pos)|)
    ensures Splice(u + Splice(t, edits, pos), Undo(t, edits, pos, |u|), |u|) == t[pos..]
    decreases |edits|
  {
    if edits == [] {
      assert (u + t[pos..])[|u|..] == t[pos..];
    } else {
      var e := edits[0];
      var u' := u + t[pos..e.start] + e.repl;
      UndoSplice(u', t, edits[1..], End(e));
      UndoSpliceStep(u, t, edits, pos);
    }
  }

  /** The step of `UndoSplice`: the first undo edit puts back the text the
      first edit replaced. */
  lemma UndoSpliceStep(u: string, t: string, edits: seq<Edit>, pos: nat)
    requires pos <= |t| && Sorted(edits, pos, |t|) && edits != []
    requires var u' := u + t[pos..edits[0].start] + edits[0].repl;
      var rest := Splice(t, edits[1..], End(edits[0]));
      Sorted(Undo(t, edits[1..], End(edits[0]), |u'|), |u'|, |u' + rest|)
      && Splice(u' + rest, Undo(t, edits[1..], End(edits[0]), |u'|), |u'|) == t[End(edits[0])..]
    ensures Sorted(Undo(t, edits, pos, |u|), |u|, |u + Splice(t, edits, pos)|)
    ensures Splice(u + Splice(t, edits, pos), Undo(t, edits, pos, |u|), |u|) == t[pos..]
  {
    var e := edits[0];
    var before := t[pos..e.start];
    var replaced := t[e.start..End(e)];
    var u' := u + before + e.repl;
    SpliceFirst(t, edits, pos);
    UndoCons(t, edits, pos, |u|, |u| + |before|, |u'|);
    Thirds(t, pos, e.start, End(e));
    UndoGlue(u, before, e.repl, Splice(t, edits[1..], End(e)), replaced,
             Undo(t, edits[1..], End(e), |u'|), t[End(e)..],
             Splice(t, edits, pos), Undo(t, edits, pos, |u|), t[pos..]);
  }

  /** The step of `UndoSplice` over the pieces alone: the edited text is
      `before + repl + rest`, and its undo starts with the edit that puts
      `replaced` back. */
  lemma UndoGlue(u: string, before: string, repl: string, rest: string, replaced: string,
                 undoRest: seq<Edit>, restored: string, spliced: string, undo: seq<Edit>, whole: string)
    requires spliced == before + repl + rest
    requires undo == [Edit(|u| + |before|, |repl|, replaced)] + undoRest
    requires whole == before + replaced + restored
    requires Sorted(undoRest, |u + before + repl|, |u + before + repl + rest|)
    requires Splice(u + before + repl + rest, undoRest, |u + before + repl|) == restored
    ensures Sorted(undo, |u|, |u + spliced|)
    ensures Splice(u + spliced, undo, |u|) == whole
  {
    Pieces(u, before, repl, rest);
    UndoFirst(u + spliced, u, before, repl, rest, replaced, undoRest, restored);
  }

  /** `Splice` of a list that has a first edit. */
  lemma SpliceFirst(t: string, edits: seq<Edit>, pos: nat)
    requires pos <= |t| && Sorted(edits, pos, |t|) && edits != []
    ensures Splice(t, edits, pos) == t[pos..edits[0].start] + edits[0].repl + Splice(t, edits[1..], End(edits[0]))
  {
  }

  /** An undo edit in front of others that restore the text after it. */
  lemma UndoFirst(out: string, u: string, before: string, repl: string, rest: string,
                  replaced: string, undoRest: seq<Edit>, restored: string)
    requires out == u + before + repl + rest
    requires Sorted(undoRest, |u| + |before| + |repl|, |out|)
    requires Splice(out, undoRest, |u| + |before| + |repl|) == restored
    ensures Sorted([Edit(|u| + |before|, |repl|, replaced)] + undoRest, |u|, |out|)
    ensures Splice(out, [Edit(|u| + |before|, |repl|, replaced)] + undoRest, |u|) == before + replaced + restored
  {
    Pieces(u, before, repl, rest);
    SpliceCons(out, Edit(|u| + |before|, |repl|, replaced), undoRest, |u|);
  }

  /** The parts of a concatenation of four. */
  lemma Pieces<T>(a: seq<T>, b: seq<T>, c: seq<T>, d: seq<T>)
    ensures a + (b + c + d) == a + b + c + d
    ensures (a + b + c + d)[|a|..|a| + |b|] == b
  {
    assert (a + b + c + d)[|a|..|a| + |b|] == (a + b)[|a|..];
  }

  /** A slice cut in three. */
  lemma Thirds<T>(s: seq<T>, i: nat, j: nat, k: nat)
    requires i <= j <= k <= |s|
    ensures s[i..] == s[i..j] + s[j..k] + s[k..]
  {
  }

  /** Hence: applying edits and then their undo, both from right to left,
      restores the text. */
  lemma UndoRestores(t: string, edits: seq<Edit>)
    requires Sorted(edits, 0, |t|)
    ensures Sorted(Undo(t, edits, 0, 0), 0, |Splice(t, edits, 0)|)
    ensures Splice(Splice(t, edits, 0), Undo(t, edits, 0, 0), 0) == t
  {
    UndoSplice([], t, edits, 0);
    assert [] + Splice(t, edits, 0) == Splice(t, edits, 0);
  }
}
