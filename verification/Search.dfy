/** What `findSignature` in internal/dsig/validate.go leaves of the tree that it searches: in every Signature that it
    meets, it puts the canonical form of the SignedInfo in the place of that. */
module Search {
  import opened Wrappers
  import opened Xml
  import opened Views
  import opened ExcC14n
  import opened Relocate
  import opened Enveloped

  const SIGNED_INFO_TAG: Name := "SignedInfo"

  /** `m` is an exclusive canonical form of the SignedInfo `s`, which was detached for that from a Signature where
      `inner` is in scope. */
  ghost predicate Rewritten(inner: Context, s: Node, m: Node) {
    && GoodContext(inner) && s.Element? && s.tag == SIGNED_INFO_TAG
    && Lookup(inner + Decls(s.attrs), s.space) == Some(DSIG_NAMESPACE)
    && Detach(inner, s).Ok? && exists comments :: C14n(Detach(inner, s).value, {}, comments) == Ok(m)
  }

  /** A default namespace around the Signature does not take hold of names that have none. */
  ghost predicate Settled(inner: Context, m: Node) {
    DEFAULT_PREFIX in Free(m) ==> Lookup(inner, DEFAULT_PREFIX) == Some(XML_NAMESPACE)
  }

  /** `f` is `n` after the search, where some SignedInfos below have been rewritten. The search goes on inside what it
      has put there. */
  ghost predicate Searched(ctx: Context, n: Node, f: Node)
    decreases f, 1
  {
    if !n.Element? then f == n
    else
      && f.Element? && f.space == n.space && f.tag == n.tag && f.attrs == n.attrs
      && AllSearched(ctx + Decls(n.attrs), n.child, f.child)
  }

  ghost predicate AllSearched(inner: Context, ns: seq<Node>, fs: seq<Node>)
    decreases fs, 0
  {
    && |ns| == |fs|
    && (fs != [] ==>
          && (exists m :: (m == ns[0] || (Rewritten(inner, ns[0], m) && Settled(inner, m))) && Searched(inner, m, fs[0]))
          && AllSearched(inner, ns[1..], fs[1..]))
  }

  /** The same, where the search ends at the Signature at `path`, of which nothing is said. */
  ghost predicate SearchedUpTo(ctx: Context, n: Node, f: Node, path: seq<nat>)
    decreases path
  {
    && path != [] && n.Element? && f.Element? && f.space == n.space && f.tag == n.tag && f.attrs == n.attrs
    && var inner, i := ctx + Decls(n.attrs), path[0];
    && |n.child| == |f.child| && i < |n.child| && n.child[i].Element? && f.child[i].Element?
    && AllSearched(inner, n.child[..i], f.child[..i]) && AllSearched(inner, n.child[i + 1..], f.child[i + 1..])
    && (|path| > 1 ==> SearchedUpTo(inner, n.child[i], f.child[i], path[1..]))
  }

  // ---------------------------------------------------------------- views

  /** Views that are equal with comments are equal without. */
  lemma {:induction false} WithoutCommentsToo(c: Context, m: Node, d: Context, n: Node)
    requires ViewOf(c, m, true) == ViewOf(d, n, true)
    ensures ViewOf(c, m, false) == ViewOf(d, n, false)
    decreases m, 1
  {
    hide ViewAttrs, Decls;
    if m.Element? {
      AllWithoutCommentsToo(c + Decls(m.attrs), m.child, d + Decls(n.attrs), n.child);
    }
  }

  lemma {:induction false} AllWithoutCommentsToo(c: Context, ms: seq<Node>, d: Context, ns: seq<Node>)
    requires ViewsOf(c, ms, true) == ViewsOf(d, ns, true)
    ensures ViewsOf(c, ms, false) == ViewsOf(d, ns, false)
    decreases ms, 0
  {
    var vs, ws := ViewsOf(c, ms, true), ViewsOf(d, ns, true);
    if ms != [] {
      assert ns != [];
      assert vs[0] == ViewOf(c, ms[0], true) && vs[1..] == ViewsOf(c, ms[1..], true);
      assert ws[0] == ViewOf(d, ns[0], true) && ws[1..] == ViewsOf(d, ns[1..], true);
      WithoutCommentsToo(c, ms[0], d, ns[0]);
      AllWithoutCommentsToo(c, ms[1..], d, ns[1..]);
    }
  }

  lemma FormKeepsView(d: Node, comments: bool, m: Node)
    requires C14n(d, {}, comments) == Ok(m)
    ensures ViewOf(DEFAULT_CONTEXT, m, false) == ViewOf(DEFAULT_CONTEXT, d, false) && WellScoped(DEFAULT_CONTEXT, m)
  {
    hide Exc, ViewOf, WellScoped, Canonical;
    KeepsView(DEFAULT_CONTEXT, DEFAULT_CONTEXT, d, {}, comments);
    if comments {
      WithoutCommentsToo(DEFAULT_CONTEXT, d, DEFAULT_CONTEXT, m);
    }
    Idempotent(DEFAULT_CONTEXT, DEFAULT_CONTEXT, d, {}, comments);
    SucceedsWhenWellScoped(DEFAULT_CONTEXT, DEFAULT_CONTEXT, m, {}, comments);
  }

  /** A rewritten SignedInfo keeps its names in its place if and only if no default namespace takes hold of any. */
  lemma RewrittenView(inner: Context, s: Node, m: Node)
    requires Rewritten(inner, s, m)
    ensures ViewOf(inner, m, false) == ViewOf(inner, s, false) <==> Settled(inner, m)
  {
    var comments :| C14n(Detach(inner, s).value, {}, comments) == Ok(m);
    hide C14n, Exc, ViewOf, Free, Detach, WellScoped;
    FormKeepsView(Detach(inner, s).value, comments, m);
    DetachKeepsView(inner, s, false);
    SameViewWhenAgree(inner, DEFAULT_CONTEXT, m, false);
    FreeOfClosed(m, inner);
  }

  /** Some unprefixed element is where there is no default namespace. */
  ghost predicate Unsettled(v: View)
    decreases v, 1
  {
    v.ViewElement? && ((v.space == DEFAULT_PREFIX && v.namespace == Some(XML_NAMESPACE)) || SomeUnsettled(v.child))
  }

  ghost predicate SomeUnsettled(vs: seq<View>)
    decreases vs, 0
  {
    vs != [] && (Unsettled(vs[0]) || SomeUnsettled(vs[1..]))
  }

  lemma {:induction false} FreeDefaultUnsettled(c: Context, n: Node)
    requires Lookup(c, DEFAULT_PREFIX) == Some(XML_NAMESPACE) && DEFAULT_PREFIX in Free(n)
    ensures Unsettled(ViewOf(c, n, false))
    decreases n, 1
  {
    hide ViewAttrs;
    if n.space != DEFAULT_PREFIX {
      FreeDefaultUnsettledAmong(c + Decls(n.attrs), n.child);
    }
  }

  lemma {:induction false} FreeDefaultUnsettledAmong(c: Context, ns: seq<Node>)
    requires Lookup(c, DEFAULT_PREFIX) == Some(XML_NAMESPACE) && DEFAULT_PREFIX in FreeAmong(ns)
    ensures SomeUnsettled(ViewsOf(c, ns, false))
    decreases ns, 0
  {
    if DEFAULT_PREFIX in Free(ns[0]) {
      FreeDefaultUnsettled(c, ns[0]);
    } else {
      FreeDefaultUnsettledAmong(c, ns[1..]);
    }
    if !ns[0].Comment? {
      assert ViewsOf(c, ns, false)[1..] == ViewsOf(c, ns[1..], false);
    }
  }

  lemma {:induction false} OrdinarySettled(c: Context, n: Node)
    requires Lookup(c, DEFAULT_PREFIX) != Some(XML_NAMESPACE) && Ordinary(n)
    ensures !Unsettled(ViewOf(c, n, false))
    decreases n, 1
  {
    hide ViewAttrs;
    if n.Element? {
      if DEFAULT_PREFIX in Decls(n.attrs) {
        var a := DeclsFrom(n.attrs, DEFAULT_PREFIX);
        assert a == DeclAttr(DEFAULT_PREFIX, a.value);
      }
      AllOrdinarySettled(c + Decls(n.attrs), n.child);
    }
  }

  lemma {:induction false} AllOrdinarySettled(c: Context, ns: seq<Node>)
    requires Lookup(c, DEFAULT_PREFIX) != Some(XML_NAMESPACE) && AllOrdinary(ns)
    ensures !SomeUnsettled(ViewsOf(c, ns, false))
    decreases ns, 0
  {
    hide Ordinary;
    if ns != [] {
      OrdinarySettled(c, ns[0]);
      AllOrdinarySettled(c, ns[1..]);
      if !ns[0].Comment? {
        assert ViewsOf(c, ns, false)[1..] == ViewsOf(c, ns[1..], false);
      }
    }
  }

  /** None does as long as the SignedInfo does not declare the default namespace to be the one of `xml`, which stands
      for having none, and which the standard forbids. */
  lemma OrdinaryIsSettled(inner: Context, s: Node, m: Node)
    requires Rewritten(inner, s, m) && Ordinary(s)
    ensures Settled(inner, m)
  {
    hide Rewritten, ViewOf, Free, Ordinary;
    RewrittenScope(inner, s, m);
    if !Settled(inner, m) {
      FreeDefaultUnsettled(DEFAULT_CONTEXT, m);
      OrdinarySettled(inner, s);
      assert false;
    }
  }

  lemma RewrittenScope(inner: Context, s: Node, m: Node)
    requires Rewritten(inner, s, m)
    ensures ViewOf(DEFAULT_CONTEXT, m, false) == ViewOf(inner, s, false)
  {
    var comments :| C14n(Detach(inner, s).value, {}, comments) == Ok(m);
    hide C14n, Exc, ViewOf, Detach, WellScoped;
    FormKeepsView(Detach(inner, s).value, comments, m);
    DetachKeepsView(inner, s, false);
  }

  /** The search leaves the view as it was. */
  lemma {:induction false} SearchKeepsView(ctx: Context, n: Node, f: Node)
    requires Searched(ctx, n, f)
    ensures ViewOf(ctx, f, false) == ViewOf(ctx, n, false)
    decreases f, 1
  {
    if n.Element? {
      SearchKeepsViews(ctx + Decls(n.attrs), n.child, f.child);
    }
  }

  lemma {:induction false} SearchKeepsViews(inner: Context, ns: seq<Node>, fs: seq<Node>)
    requires AllSearched(inner, ns, fs)
    ensures ViewsOf(inner, fs, false) == ViewsOf(inner, ns, false)
    decreases fs, 0
  {
    hide Rewritten, Settled, Searched;
    if fs != [] {
      var m :| (m == ns[0] || (Rewritten(inner, ns[0], m) && Settled(inner, m))) && Searched(inner, m, fs[0]);
      SearchKeepsView(inner, m, fs[0]);
      SearchKeepsViews(inner, ns[1..], fs[1..]);
      if m != ns[0] {
        RewrittenView(inner, ns[0], m);
        RewrittenElement(inner, ns[0], m);
      }
      SearchedKind(inner, m, fs[0]);
    }
  }

  lemma RewrittenElement(inner: Context, s: Node, m: Node)
    requires Rewritten(inner, s, m)
    ensures s.Element? && m.Element?
  {
  }

  lemma SearchedKind(ctx: Context, n: Node, f: Node)
    requires Searched(ctx, n, f)
    ensures f.Comment? <==> n.Comment?
  {
  }

  /** What the search has left shows only in the Signature that it ends at. */
  lemma {:induction false} SearchedRemoval(ctx: Context, n: Node, f: Node, path: seq<nat>)
    requires SearchedUpTo(ctx, n, f, path)
    ensures ElementPath(n, path) && ElementPath(f, path)
    ensures ViewOf(ctx, RemoveAt(f, path), false) == ViewOf(ctx, RemoveAt(n, path), false)
    decreases path
  {
    hide AllSearched, ViewAttrs, Decls;
    var inner, i := ctx + Decls(n.attrs), path[0];
    SearchKeepsViews(inner, n.child[..i], f.child[..i]);
    SearchKeepsViews(inner, n.child[i + 1..], f.child[i + 1..]);
    if |path| == 1 {
      ViewsConcat(inner, n.child[..i], n.child[i + 1..]);
      ViewsConcat(inner, f.child[..i], f.child[i + 1..]);
    } else {
      SearchedRemoval(inner, n.child[i], f.child[i], path[1..]);
      RestoredViews(inner, n.child, i, RemoveAt(n.child[i], path[1..]));
      RestoredViews(inner, f.child, i, RemoveAt(f.child[i], path[1..]));
    }
  }

  lemma RestoredViews(inner: Context, ns: seq<Node>, i: nat, n: Node)
    requires i < |ns| && n.Element?
    ensures ViewsOf(inner, ns[i := n], false)
         == ViewsOf(inner, ns[..i], false) + [ViewOf(inner, n, false)] + ViewsOf(inner, ns[i + 1..], false)
  {
    var child := ns[i := n];
    ViewsSplit(inner, child, i);
    assert child[..i] == ns[..i] && child[i + 1..] == ns[i + 1..];
  }

  /** A search that rewrites nothing is one. */
  lemma {:induction false} SearchedUpToSelf(ctx: Context, n: Node, path: seq<nat>)
    requires ElementPath(n, path)
    ensures SearchedUpTo(ctx, n, n, path)
    decreases path
  {
    hide AllSearched;
    var inner, i := ctx + Decls(n.attrs), path[0];
    AllSearchedSelf(inner, n.child[..i]);
    AllSearchedSelf(inner, n.child[i + 1..]);
    if |path| > 1 {
      SearchedUpToSelf(inner, n.child[i], path[1..]);
    }
  }

  lemma {:induction false} SearchedSelf(ctx: Context, n: Node)
    ensures Searched(ctx, n, n)
    decreases n, 1
  {
    if n.Element? {
      AllSearchedSelf(ctx + Decls(n.attrs), n.child);
    }
  }

  lemma {:induction false} AllSearchedSelf(inner: Context, ns: seq<Node>)
    ensures AllSearched(inner, ns, ns)
    decreases ns, 0
  {
    if ns != [] {
      SearchedSelf(inner, ns[0]);
      AllSearchedSelf(inner, ns[1..]);
    }
  }
}
