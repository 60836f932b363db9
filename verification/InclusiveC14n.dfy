/** Inclusive canonicalization, internal/dsig/canonicalize.go: `canonicalPrep`.

    The pass keeps a map of the declarations seen so far. It is modelled with the declared prefix as
    the key, where the code uses the whole attribute name. */
module InclusiveC14n {
  import opened Wrappers
  import opened Xml
  import opened AttrOrder
  import opened ExcC14n

  // ---------------------------------------------------------------- the pass

  predicate Repeats(seen: Context, a: Attr)
    requires IsDecl(a)
  {
    if a.space == XMLNS_PREFIX then a.key in seen && seen[a.key] == a.value
    else if DEFAULT_PREFIX in seen then seen[DEFAULT_PREFIX] == a.value
    else a.value == ""
  }

  /** The declarations of an element that are kept. */
  ghost function News(seen: Context, attrs: seq<Attr>): Context {
    map p | p in Decls(attrs) && !Repeats(seen, DeclAttr(p, Decls(attrs)[p])) :: Decls(attrs)[p]
  }

  ghost function Prep(seen: Context, n: Node, comments: bool): Node
    decreases n, 1
  {
    if !n.Element? then n
    else
      var news := News(seen, n.attrs);
      Element(n.space, n.tag, Redeclare(n.attrs, news), PrepAll(seen + news, n.child, comments))
  }

  ghost function PrepAll(seen: Context, ns: seq<Node>, comments: bool): seq<Node>
    decreases ns, 0
  {
    if ns == [] then []
    else if ns[0].Comment? && !comments then PrepAll(seen, ns[1..], comments)
    else [Prep(seen, ns[0], comments)] + PrepAll(seen, ns[1..], comments)
  }

  // ---------------------------------------------------------------- what it keeps

  /** The bindings in scope, where an empty default namespace is the same as none. */
  function Scope(ctx: Context): Context {
    if DEFAULT_PREFIX in ctx && ctx[DEFAULT_PREFIX] == "" then ctx - {DEFAULT_PREFIX} else ctx
  }

  /** An element with all that is in scope on it, whether used or not. */
  datatype Scoped =
    | ScopedElement(space: string, tag: Name, scope: Context, plain: set<Attr>, child: seq<Scoped>)
    | ScopedLeaf(leaf: Node)

  ghost function ScopedOf(ctx: Context, n: Node, with: bool): Scoped
    decreases n, 1
  {
    if !n.Element? then ScopedLeaf(n)
    else
      var inner := ctx + Decls(n.attrs);
      ScopedElement(n.space, n.tag, Scope(inner), Plain(n.attrs), ScopedAll(inner, n.child, with))
  }

  ghost function ScopedAll(inner: Context, ns: seq<Node>, with: bool): seq<Scoped>
    decreases ns, 0
  {
    if ns == [] then []
    else if ns[0].Comment? && !with then ScopedAll(inner, ns[1..], with)
    else [ScopedOf(inner, ns[0], with)] + ScopedAll(inner, ns[1..], with)
  }

  /** The difference between what is in scope outside and inside, as declarations. */
  function Delta(outer: Context, inner: Context): Context {
    (map p | p in inner && Lookup(outer, p) != Lookup(inner, p) :: inner[p]) +
    (if DEFAULT_PREFIX in outer && DEFAULT_PREFIX !in inner then map[DEFAULT_PREFIX := ""] else map[])
  }

  lemma DeltaAt(ctx: Context, seen: Context, attrs: seq<Attr>, p: string)
    requires Lookup(Scope(ctx), p) == Lookup(Scope(seen), p)
    ensures Lookup(News(seen, attrs), p) == Lookup(Delta(Scope(seen), Scope(ctx + Decls(attrs))), p)
    ensures Lookup(Scope(seen + News(seen, attrs)), p) == Lookup(Scope(ctx + Decls(attrs)), p)
  {
    hide Decls;
    var ds := Decls(attrs);
    ScopeAt(ctx, p);
    ScopeAt(seen, p);
    ScopeAt(ctx + ds, p);
    ScopeAt(seen + News(seen, attrs), p);
    assert Lookup(Delta(Scope(seen), Scope(ctx + ds)), p) ==
      if p == DEFAULT_PREFIX && p in Scope(seen) && p !in Scope(ctx + ds) then Some("")
      else if p in Scope(ctx + ds) && Lookup(Scope(seen), p) != Lookup(Scope(ctx + ds), p) then Some(Scope(ctx + ds)[p])
      else None;
  }

  lemma ScopeAt(ctx: Context, p: string)
    ensures Lookup(Scope(ctx), p) == if p == DEFAULT_PREFIX && Lookup(ctx, p) == Some("") then None else Lookup(ctx, p)
  {
  }

  lemma NewsAreDelta(ctx: Context, seen: Context, attrs: seq<Attr>)
    requires Scope(ctx) == Scope(seen)
    ensures News(seen, attrs) == Delta(Scope(seen), Scope(ctx + Decls(attrs)))
    ensures Scope(seen + News(seen, attrs)) == Scope(ctx + Decls(attrs))
  {
    hide Decls, News, Delta, Scope;
    forall p
      ensures Lookup(News(seen, attrs), p) == Lookup(Delta(Scope(seen), Scope(ctx + Decls(attrs))), p)
      ensures Lookup(Scope(seen + News(seen, attrs)), p) == Lookup(Scope(ctx + Decls(attrs)), p)
    {
      DeltaAt(ctx, seen, attrs, p);
    }
    SameMap(News(seen, attrs), Delta(Scope(seen), Scope(ctx + Decls(attrs))));
    SameMap(Scope(seen + News(seen, attrs)), Scope(ctx + Decls(attrs)));
  }

  lemma SameMap(m: Context, n: Context)
    requires forall p :: Lookup(m, p) == Lookup(n, p)
    ensures m == n
  {
    forall p ensures p in m <==> p in n { assert Lookup(m, p) == Lookup(n, p); }
    forall p | p in m ensures m[p] == n[p] { assert Lookup(m, p) == Lookup(n, p); }
  }

  /** Every element of the output has in scope what it had in the input, and the same attributes. */
  lemma {:induction false} PrepKeepsScope(ctx: Context, seen: Context, n: Node, comments: bool)
    requires Scope(ctx) == Scope(seen)
    ensures ScopedOf(seen, Prep(seen, n, comments), comments) == ScopedOf(ctx, n, comments)
    decreases n, 1
  {
    hide Redeclare, News, Scope;
    if n.Element? {
      var news := News(seen, n.attrs);
      RedeclareDecls(n.attrs, news);
      NewsAreDelta(ctx, seen, n.attrs);
      PrepAllKeepsScope(ctx + Decls(n.attrs), seen + news, n.child, comments);
    }
  }

  lemma {:induction false} PrepAllKeepsScope(ctx: Context, seen: Context, ns: seq<Node>, comments: bool)
    requires Scope(ctx) == Scope(seen)
    ensures ScopedAll(seen, PrepAll(seen, ns, comments), comments) == ScopedAll(ctx, ns, comments)
    decreases ns, 0
  {
    hide Scope;
    if ns != [] {
      PrepAllKeepsScope(ctx, seen, ns[1..], comments);
      if !(ns[0].Comment? && !comments) {
        PrepKeepsScope(ctx, seen, ns[0], comments);
        assert Prep(seen, ns[0], comments).Comment? ==> ns[0].Comment?;
      }
    }
  }

  lemma {:induction false} SameScopedSameForm(
      c: Context, d: Context, s: Context, t: Context, m: Node, n: Node, comments: bool)
    requires Scope(c) == Scope(s) == Scope(d) == Scope(t)
    requires ScopedOf(c, m, comments) == ScopedOf(d, n, comments)
    ensures Prep(s, m, comments) == Prep(t, n, comments)
    decreases m, 1
  {
    hide News, Scope, Arrange, Delta;
    if m.Element? && n.Element? {
      NewsAreDelta(c, s, m.attrs);
      NewsAreDelta(d, t, n.attrs);
      SameScopedAllSameForm(c + Decls(m.attrs), d + Decls(n.attrs), s + News(s, m.attrs), t + News(t, n.attrs),
                            m.child, n.child, comments);
    }
  }

  lemma {:induction false} SameScopedAllSameForm(
      c: Context, d: Context, s: Context, t: Context, ms: seq<Node>, ns: seq<Node>, comments: bool)
    requires Scope(c) == Scope(s) == Scope(d) == Scope(t)
    requires ScopedAll(c, ms, comments) == ScopedAll(d, ns, comments)
    ensures PrepAll(s, ms, comments) == PrepAll(t, ns, comments)
    decreases ms, |ns|
  {
    hide Scope, ScopedOf, Prep;
    if ms != [] && ms[0].Comment? && !comments {
      SameScopedAllSameForm(c, d, s, t, ms[1..], ns, comments);
    } else if ns != [] && ns[0].Comment? && !comments {
      SameScopedAllSameForm(c, d, s, t, ms, ns[1..], comments);
    } else if ms != [] && ns != [] {
      var vs, ws := ScopedAll(c, ms, comments), ScopedAll(d, ns, comments);
      assert vs[0] == ScopedOf(c, ms[0], comments) && ws[0] == ScopedOf(d, ns[0], comments);
      assert vs[1..] == ScopedAll(c, ms[1..], comments) && ws[1..] == ScopedAll(d, ns[1..], comments);
      SameScopedSameForm(c, d, s, t, ms[0], ns[0], comments);
      SameScopedAllSameForm(c, d, s, t, ms[1..], ns[1..], comments);
    }
  }

  /** The inclusive form is canonical for everything that is in scope: two elements have the same form
      if and only if they have the same attributes and the same bindings at every element. */
  lemma InclusiveCanonicalForm(seen: Context, m: Node, n: Node, comments: bool)
    ensures Prep(seen, m, comments) == Prep(seen, n, comments)
       <==> ScopedOf(seen, m, comments) == ScopedOf(seen, n, comments)
  {
    PrepKeepsScope(seen, seen, m, comments);
    PrepKeepsScope(seen, seen, n, comments);
    if ScopedOf(seen, m, comments) == ScopedOf(seen, n, comments) {
      SameScopedSameForm(seen, seen, seen, seen, m, n, comments);
    }
  }

  /** A second run changes nothing. */
  lemma PrepIdempotent(seen: Context, n: Node, comments: bool)
    ensures Prep(seen, Prep(seen, n, comments), comments) == Prep(seen, n, comments)
  {
    PrepKeepsScope(seen, seen, n, comments);
    InclusiveCanonicalForm(seen, Prep(seen, n, comments), n, comments);
  }

  /** No declaration in the output repeats what is in scope, and no comment is left over. */
  ghost predicate NoRepeats(ctx: Context, n: Node, comments: bool)
    decreases n, 1
  {
    n.Element? ==>
      && (forall a :: a in n.attrs && IsDecl(a) ==> Lookup(Scope(ctx), DeclPrefix(a)) != Lookup(Scope(ctx + Decls(n.attrs)), DeclPrefix(a)))
      && NoneRepeats(ctx + Decls(n.attrs), n.child, comments)
  }

  ghost predicate NoneRepeats(ctx: Context, ns: seq<Node>, comments: bool)
    decreases ns, 0
  {
    ns != [] ==> (ns[0].Comment? ==> comments) && NoRepeats(ctx, ns[0], comments) && NoneRepeats(ctx, ns[1..], comments)
  }

  lemma {:induction false} PrepLeavesNoRepeats(seen: Context, n: Node, comments: bool)
    ensures NoRepeats(seen, Prep(seen, n, comments), comments)
    decreases n, 1
  {
    hide Redeclare;
    if n.Element? {
      var news := News(seen, n.attrs);
      RedeclareDecls(n.attrs, news);
      RedeclareElements(n.attrs, news);
      var out := Prep(seen, n, comments);
      forall a | a in out.attrs && IsDecl(a)
        ensures Lookup(Scope(seen), DeclPrefix(a)) != Lookup(Scope(seen + Decls(out.attrs)), DeclPrefix(a))
      {
        assert a in DeclAttrs(news);
        NewsDiffer(seen, n.attrs, DeclPrefix(a));
      }
      PrepAllLeavesNoRepeats(seen + news, n.child, comments);
    }
  }

  lemma NewsDiffer(seen: Context, attrs: seq<Attr>, p: string)
    requires p in News(seen, attrs)
    ensures Lookup(Scope(seen), p) != Lookup(Scope(seen + News(seen, attrs)), p)
  {
  }

  lemma {:induction false} PrepAllLeavesNoRepeats(seen: Context, ns: seq<Node>, comments: bool)
    ensures NoneRepeats(seen, PrepAll(seen, ns, comments), comments)
    decreases ns, 0
  {
    if ns != [] {
      PrepAllLeavesNoRepeats(seen, ns[1..], comments);
      if !(ns[0].Comment? && !comments) {
        PrepLeavesNoRepeats(seen, ns[0], comments);
      }
    }
  }

  // ---------------------------------------------------------------- the code

  /** What the compaction keeps of the sorted attributes `attrs`. */
  predicate Keeps(seen: Context, a: Attr) {
    IsDecl(a) ==> !Repeats(seen, a)
  }

  lemma DeclaredOnceAt(attrs: seq<Attr>, i: nat, j: nat)
    requires DeclaresOnce(attrs) && i < j < |attrs| && IsDecl(attrs[i]) && IsDecl(attrs[j])
    ensures DeclPrefix(attrs[i]) != DeclPrefix(attrs[j])
  {
  }

  /** What is kept of attributes that declare no prefix twice are the plain ones and the new declarations. */
  lemma KeptAreNews(attrs: seq<Attr>, seen: Context, kept: seq<Attr>, seen': Context)
    requires DeclaresOnce(attrs)
    requires forall a :: a in kept <==> a in attrs && Keeps(seen, a)
    requires forall p :: Lookup(seen', p) == KeptBinding(kept, seen, p)
    ensures forall a :: a in kept <==> a in Redeclare(attrs, News(seen, attrs))
    ensures Sorted(kept) ==> kept == Redeclare(attrs, News(seen, attrs))
    ensures seen' == seen + News(seen, attrs)
  {
    hide Sorted, Arrange, AttrLess, DeclaresOnce, Repeats;
    var news := News(seen, attrs);
    forall a | a in kept ensures a in Plain(attrs) + DeclAttrs(news) {
      if IsDecl(a) {
        DeclsAgree(attrs, a);
        assert a == DeclAttr(DeclPrefix(a), Decls(attrs)[DeclPrefix(a)]);
        assert DeclPrefix(a) in news;
      }
    }
    forall a | a in DeclAttrs(news) ensures a in kept {
      var b := DeclsFrom(attrs, DeclPrefix(a));
      assert b == a;
    }
    if Sorted(kept) {
      ArrangeSorted(kept, Plain(attrs) + DeclAttrs(news));
    }
    forall p | p in Decls(kept) ensures p in news {
      var a := DeclsFrom(kept, p);
      assert a in DeclAttrs(news);
    }
    forall p ensures Lookup(seen', p) == Lookup(seen + news, p) {
      assert Lookup(seen', p) == KeptBinding(kept, seen, p);
      if p in news {
        assert DeclAttr(p, news[p]) in DeclAttrs(news);
        assert DeclAttr(p, news[p]) in kept;
        KeptBindingIs(attrs, kept, seen, DeclAttr(p, news[p]));
      }
    }
    SameMap(seen', seen + news);
  }

  function KeptBinding(kept: seq<Attr>, seen: Context, p: string): Option<string> {
    if p in Decls(kept) then Some(Decls(kept)[p]) else Lookup(seen, p)
  }

  lemma DeclsAgree(attrs: seq<Attr>, a: Attr)
    requires DeclaresOnce(attrs) && a in attrs && IsDecl(a)
    ensures Lookup(Decls(attrs), DeclPrefix(a)) == Some(a.value)
  {
    hide DeclaresOnce;
    DeclsHas(attrs, a);
    var b := DeclsFrom(attrs, DeclPrefix(a));
    var i :| 0 <= i < |attrs| && attrs[i] == a;
    var j :| 0 <= j < |attrs| && attrs[j] == b;
    if i < j { DeclaredOnceAt(attrs, i, j); }
    if j < i { DeclaredOnceAt(attrs, j, i); }
  }

  lemma KeptBindingIs(attrs: seq<Attr>, kept: seq<Attr>, seen: Context, d: Attr)
    requires DeclaresOnce(attrs) && (forall a :: a in kept ==> a in attrs) && d in kept && IsDecl(d)
    ensures KeptBinding(kept, seen, DeclPrefix(d)) == Some(d.value)
  {
    hide DeclaresOnce;
    DeclsHas(kept, d);
    var b := DeclsFrom(kept, DeclPrefix(d));
    DeclsAgree(attrs, b);
    DeclsAgree(attrs, d);
  }

  /** The state of the compaction after the first `i` of the sorted attributes. */
  ghost predicate Compacted(sorted: seq<Attr>, i: nat, kept: seq<Attr>, seen0: Context, seen: Context)
    requires i <= |sorted|
  {
    && (Sorted(sorted) ==> Sorted(kept))
    && (forall a :: a in kept <==> a in sorted[..i] && Keeps(seen0, a))
    && (forall p :: Lookup(seen, p) == KeptBinding(kept, seen0, p))
  }

  /** The map that the loop updates decides as the map of the ancestors does. */
  lemma SeenAsBefore(sorted: seq<Attr>, i: nat, kept: seq<Attr>, seen0: Context, seen: Context)
    requires i < |sorted| && DeclaresOnce(sorted) && Compacted(sorted, i, kept, seen0, seen)
    ensures Keeps(seen, sorted[i]) <==> Keeps(seen0, sorted[i])
  {
    hide AttrLess, Sorted, DeclaresOnce, Repeats;
    var a := sorted[i];
    if IsDecl(a) {
      if DeclPrefix(a) in Decls(kept) {
        var b := DeclsFrom(kept, DeclPrefix(a));
        var j :| 0 <= j < i && sorted[j] == b;
        DeclaredOnceAt(sorted, j, i);
      }
      assert Lookup(seen, DeclPrefix(a)) == Lookup(seen0, DeclPrefix(a));
      RepeatsLookup(seen, seen0, a);
    }
  }

  lemma AppendSorted(sorted: seq<Attr>, i: nat, kept: seq<Attr>)
    requires i < |sorted| && Sorted(sorted) && Sorted(kept) && forall a :: a in kept ==> a in sorted[..i]
    ensures Sorted(kept + [sorted[i]])
  {
    hide AttrLess;
    forall x | x in kept ensures AttrLess(x, sorted[i]) {
      assert x in sorted[..i];
      var j :| 0 <= j < i && sorted[j] == x;
    }
  }

  lemma BindingNext(kept: seq<Attr>, a: Attr, seen0: Context, seen: Context)
    requires forall p :: Lookup(seen, p) == KeptBinding(kept, seen0, p)
    ensures forall p :: Lookup(if IsDecl(a) then seen[DeclPrefix(a) := a.value] else seen, p)
                     == KeptBinding(kept + [a], seen0, p)
  {
    hide Decls;
    if IsDecl(a) { DeclsAppend(kept, a); } else { DeclsAppendPlain(kept, a); }
    forall p
      ensures Lookup(if IsDecl(a) then seen[DeclPrefix(a) := a.value] else seen, p) == KeptBinding(kept + [a], seen0, p)
    {
      assert Lookup(seen, p) == KeptBinding(kept, seen0, p);
    }
  }

  lemma CompactOne(sorted: seq<Attr>, i: nat, kept: seq<Attr>, seen0: Context, seen: Context)
    requires i < |sorted| && DeclaresOnce(sorted) && Compacted(sorted, i, kept, seen0, seen)
    ensures var a := sorted[i];
            && (Keeps(seen, a) <==> Keeps(seen0, a))
            && Compacted(sorted, i + 1, if Keeps(seen, a) then kept + [a] else kept, seen0,
                         if IsDecl(a) && Keeps(seen, a) then seen[DeclPrefix(a) := a.value] else seen)
  {
    SeenAsBefore(sorted, i, kept, seen0, seen);
    hide AttrLess, Sorted, DeclaresOnce, Keeps, KeptBinding;
    var a := sorted[i];
    assert sorted[..i + 1] == sorted[..i] + [a];
    if Sorted(sorted) { AppendSorted(sorted, i, kept); }
    BindingNext(kept, a, seen0, seen);
  }

  lemma RepeatsLookup(s: Context, t: Context, a: Attr)
    requires IsDecl(a) && Lookup(s, DeclPrefix(a)) == Lookup(t, DeclPrefix(a))
    ensures Repeats(s, a) == Repeats(t, a)
  {
  }

  lemma {:induction false} PrepAllElementwise(seen: Context, ns: seq<Node>, comments: bool)
    ensures var left := if comments then ns else WithoutComments(ns);
            && |PrepAll(seen, ns, comments)| == |left|
            && forall i :: 0 <= i < |left| ==> PrepAll(seen, ns, comments)[i] == Prep(seen, left[i], comments)
  {
    if ns != [] {
      PrepAllElementwise(seen, ns[1..], comments);
    }
  }

  /** The comment removal loop. */
  method RemoveComments(child: seq<Node>) returns (left: seq<Node>)
    ensures left == WithoutComments(child)
  {
    left := child;
    var c := 0;
    while c < |left|
      invariant c <= |left|
      invariant forall i :: 0 <= i < c ==> !left[i].Comment?
      invariant WithoutComments(left) == WithoutComments(child)
      decreases |left| - c
    {
      if left[c].Comment? {
        assert left == left[..c] + left[c..];
        WithoutCommentsConcat(left[..c], left[c..]);
        WithoutCommentsConcat(left[..c], left[c + 1..]);
        assert left[c..][1..] == left[c + 1..];
        left := left[..c] + left[c + 1..];
      } else {
        c := c + 1;
      }
    }
    WithoutCommentsOnly(left);
  }

  /** `canonicalPrepInner`, which works on a copy. The order of tied attributes is left open. */
  method CanonicalPrepInner(n: Node, seenSoFar: Context, comments: bool) returns (ne: Node)
    requires n.Element?
    ensures ne.Element?
    ensures DeclaresOnceTree(n) ==> Alike(ne, Prep(seenSoFar, n, comments))
    ensures TieFreeTree(n) ==> ne == Prep(seenSoFar, n, comments)
    decreases n, 1
  {
    hide TieFreeTree, DeclaresOnceTree, Alike, AllAlike, Prep, PrepAll, News, Redeclare, InTextOrder;
    var attrs, seen := Compact(n.attrs, seenSoFar);
    var child := PrepChildren(n, seen, comments);
    ne := Element(n.space, n.tag, attrs, child);
    if TieFreeTree(n) { TieFreeTreeDeclaresOnce(n); }
    if DeclaresOnceTree(n) {
      TreeRoot(n);
      PrepElement(seenSoFar, n, comments);
      AlikeElement(ne, Prep(seenSoFar, n, comments));
    }
  }

  lemma TreeRoot(n: Node)
    requires n.Element?
    ensures TieFreeTree(n) ==> TieFree(n.attrs)
    ensures DeclaresOnceTree(n) ==> DeclaresOnce(n.attrs)
  {
  }

  /** The sort and the compaction by index. */
  method Compact(all: seq<Attr>, seenSoFar: Context) returns (attrs: seq<Attr>, seen: Context)
    ensures DeclaresOnce(all) ==>
              && (forall a :: a in attrs <==> a in Redeclare(all, News(seenSoFar, all)))
              && seen == seenSoFar + News(seenSoFar, all)
    ensures InTextOrder(attrs)
    ensures TieFree(all) ==> attrs == Redeclare(all, News(seenSoFar, all))
  {
    hide AttrLess, Sorted, TieFree, DeclaresOnce, Redeclare, News, Compacted, InTextOrder, Picked;
    seen := seenSoFar;
    attrs := SortAttrs(all);
    ghost var sorted := attrs;
    ghost var once := DeclaresOnce(all);
    if TieFree(all) { TieFreeDeclaresOnce(all); }
    var k := 0;
    CompactStart(sorted, seenSoFar);
    ghost var places: seq<nat> := [];
    PickedStart(sorted);
    for i := 0 to |attrs|
      invariant k <= i && |attrs| == |sorted| && (forall j :: i <= j < |attrs| ==> attrs[j] == sorted[j])
      invariant once ==> Compacted(sorted, i, attrs[..k], seenSoFar, seen)
      invariant Picked(sorted, i, attrs[..k], places)
    {
      var attr := attrs[i];
      assert attr == sorted[i];
      if once { CompactOne(sorted, i, attrs[..k], seenSoFar, seen); }
      if Keeps(seen, attr) {
        PickedNext(sorted, i, attrs[..k], places);
        places := places + [i];
        attrs := attrs[k := attr];
        k := k + 1;
        assert attrs[..k] == attrs[..k - 1] + [attr];
        if IsDecl(attr) {
          seen := seen[DeclPrefix(attr) := attr.value];
        }
      } else {
        PickedSkip(sorted, i, attrs[..k], places);
      }
    }
    attrs := attrs[..k];
    PickedInText(sorted, |sorted|, attrs, places);
    if once {
      SameElements(all, sorted);
      CompactEnd(sorted, attrs, seenSoFar, seen, all);
    }
  }

  /** `kept` is what `sorted[..i]` has at these places, one after the other. */
  ghost predicate Picked(sorted: seq<Attr>, i: nat, kept: seq<Attr>, places: seq<nat>) {
    && |places| == |kept| && i <= |sorted|
    && (forall t :: 0 <= t < |kept| ==> places[t] < i && kept[t] == sorted[places[t]])
    && forall t, u :: 0 <= t < u < |kept| ==> places[t] < places[u]
  }

  lemma PickedStart(sorted: seq<Attr>)
    ensures Picked(sorted, 0, [], [])
  {
  }

  lemma PickedNext(sorted: seq<Attr>, i: nat, kept: seq<Attr>, places: seq<nat>)
    requires i < |sorted| && Picked(sorted, i, kept, places)
    ensures Picked(sorted, i + 1, kept + [sorted[i]], places + [i])
  {
  }

  lemma PickedSkip(sorted: seq<Attr>, i: nat, kept: seq<Attr>, places: seq<nat>)
    requires i < |sorted| && Picked(sorted, i, kept, places)
    ensures Picked(sorted, i + 1, kept, places)
  {
  }

  lemma PickedInText(sorted: seq<Attr>, i: nat, kept: seq<Attr>, places: seq<nat>)
    requires InTextOrder(sorted) && Picked(sorted, i, kept, places)
    ensures InTextOrder(kept)
  {
    hide MustPrecede;
  }

  lemma CompactStart(sorted: seq<Attr>, seen: Context)
    ensures Compacted(sorted, 0, [], seen, seen)
  {
    EmptySorted();
  }

  lemma CompactEnd(sorted: seq<Attr>, kept: seq<Attr>, seen0: Context, seen: Context, all: seq<Attr>)
    requires Compacted(sorted, |sorted|, kept, seen0, seen) && DeclaresOnce(all)
    requires forall a :: a in all <==> a in sorted
    ensures forall a :: a in kept <==> a in Redeclare(all, News(seen0, all))
    ensures Sorted(sorted) ==> kept == Redeclare(all, News(seen0, all))
    ensures seen == seen0 + News(seen0, all)
  {
    hide Sorted, DeclaresOnce, Redeclare, News, Keeps;
    assert sorted[..|sorted|] == sorted;
    KeptAreNews(all, seen0, kept, seen);
  }

  /** The comment removal and the recursive calls. */
  method PrepChildren(n: Node, seen: Context, comments: bool) returns (child: seq<Node>)
    requires n.Element?
    ensures DeclaresOnceTree(n) ==> AllAlike(child, PrepAll(seen, n.child, comments))
    ensures TieFreeTree(n) ==> child == PrepAll(seen, n.child, comments)
    decreases n, 0
  {
    hide Prep, PrepAll, Alike, AllAlike;
    var left := n.child;
    if !comments {
      left := RemoveComments(left);
      WithoutCommentsOnly(n.child);
    }
    child := left;
    for i := 0 to |left|
      invariant |child| == |left|
      invariant forall j :: i <= j < |left| ==> child[j] == left[j]
      invariant DeclaresOnceTree(n) ==> forall j :: 0 <= j < i ==> Alike(child[j], Prep(seen, left[j], comments))
      invariant TieFreeTree(n) ==> forall j :: 0 <= j < i ==> child[j] == Prep(seen, left[j], comments)
    {
      assert left[i] in n.child;
      if child[i].Element? {
        var c := CanonicalPrepInner(left[i], seen, comments);
        child := child[i := c];
      } else {
        PrepLeaf(seen, left[i], comments);
      }
    }
    PrepAllElementwise(seen, n.child, comments);
    if DeclaresOnceTree(n) {
      AllAlikeElementwise(child, PrepAll(seen, n.child, comments));
    }
    if TieFreeTree(n) {
      assert child == PrepAll(seen, n.child, comments);
    }
  }

  lemma EmptySorted()
    ensures Sorted([])
  {
  }

  lemma PrepLeaf(seen: Context, n: Node, comments: bool)
    requires !n.Element?
    ensures Prep(seen, n, comments) == n && Alike(n, n)
  {
  }

  lemma PrepElement(seen: Context, n: Node, comments: bool)
    requires n.Element?
    ensures Prep(seen, n, comments)
         == Element(n.space, n.tag, Redeclare(n.attrs, News(seen, n.attrs)),
                    PrepAll(seen + News(seen, n.attrs), n.child, comments))
  {
  }
}
