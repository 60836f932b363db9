/** Enveloped signatures: the digest made in internal/dsig/sign.go and the tree that
    internal/dsig/validate.go digests again. Hashing is left out: equal trees are equal digests, and
    different ones are taken to be different. */
module Enveloped {
  import opened Wrappers
  import opened Xml
  import opened Views
  import opened ExcC14n
  import opened Relocate

  // ---------------------------------------------------------------- paths

  /** `path` leads from `n` through elements to an element. */
  predicate ElementPath(n: Node, path: seq<nat>)
    decreases path
  {
    && path != [] && n.Element? && path[0] < |n.child| && n.child[path[0]].Element?
    && (|path| > 1 ==> ElementPath(n.child[path[0]], path[1..]))
  }

  /** The tree without the element at `path`: `removeElementAtPath`. */
  function RemoveAt(n: Node, path: seq<nat>): (r: Node)
    requires ElementPath(n, path)
    ensures r.Element?
    decreases path
  {
    var i := path[0];
    if |path| == 1 then n.(child := n.child[..i] + n.child[i + 1..])
    else n.(child := n.child[i := RemoveAt(n.child[i], path[1..])])
  }

  /** `path` leads to a place among the children of some element. */
  predicate InsertPath(n: Node, path: seq<nat>)
    decreases path
  {
    && path != [] && n.Element?
    && (if |path| == 1 then path[0] <= |n.child|
        else path[0] < |n.child| && InsertPath(n.child[path[0]], path[1..]))
  }

  function InsertAt(n: Node, path: seq<nat>, s: Node): (r: Node)
    requires InsertPath(n, path)
    ensures r.Element?
    decreases path
  {
    var i := path[0];
    if |path| == 1 then n.(child := n.child[..i] + [s] + n.child[i..])
    else n.(child := n.child[i := InsertAt(n.child[i], path[1..], s)])
  }

  lemma {:induction false} RemoveInserted(n: Node, path: seq<nat>, s: Node)
    requires InsertPath(n, path) && s.Element?
    ensures ElementPath(InsertAt(n, path, s), path) && RemoveAt(InsertAt(n, path, s), path) == n
    decreases path
  {
    var i := path[0];
    if |path| == 1 {
      var c := n.child[..i] + [s] + n.child[i..];
      assert c[..i] + c[i + 1..] == n.child;
    } else {
      RemoveInserted(n.child[i], path[1..], s);
      assert n.child[i := n.child[i]] == n.child;
    }
  }

  // ---------------------------------------------------------------- paths in views

  predicate ViewPathOk(v: View, path: seq<nat>)
    decreases path
  {
    && path != [] && v.ViewElement? && path[0] < |v.child| && v.child[path[0]].ViewElement?
    && (|path| > 1 ==> ViewPathOk(v.child[path[0]], path[1..]))
  }

  function ViewRemoveAt(v: View, path: seq<nat>): View
    requires ViewPathOk(v, path)
    decreases path
  {
    var i := path[0];
    if |path| == 1 then v.(child := v.child[..i] + v.child[i + 1..])
    else v.(child := v.child[i := ViewRemoveAt(v.child[i], path[1..])])
  }

  /** How many of the nodes are left when comments are dropped. */
  function Visible(ns: seq<Node>): nat {
    if ns == [] then 0 else (if ns[0].Comment? then 0 else 1) + Visible(ns[1..])
  }

  /** Where `path` leads once comments are dropped. */
  function ViewPath(n: Node, path: seq<nat>): seq<nat>
    requires ElementPath(n, path)
    decreases path
  {
    [Visible(n.child[..path[0]])] + (if |path| == 1 then [] else ViewPath(n.child[path[0]], path[1..]))
  }

  lemma {:induction false} ViewsConcat(scope: Context, ms: seq<Node>, ns: seq<Node>)
    ensures ViewsOf(scope, ms + ns, false) == ViewsOf(scope, ms, false) + ViewsOf(scope, ns, false)
    ensures |ViewsOf(scope, ms, false)| == Visible(ms)
  {
    if ms == [] {
      assert [] + ns == ns;
    } else {
      assert (ms + ns)[0] == ms[0] && (ms + ns)[1..] == ms[1..] + ns;
      ViewsConcat(scope, ms[1..], ns);
    }
  }

  lemma ViewsSplit(scope: Context, ns: seq<Node>, i: nat)
    requires i < |ns| && !ns[i].Comment?
    ensures ViewsOf(scope, ns, false)
         == ViewsOf(scope, ns[..i], false) + [ViewOf(scope, ns[i], false)] + ViewsOf(scope, ns[i + 1..], false)
    ensures |ViewsOf(scope, ns[..i], false)| == Visible(ns[..i])
  {
    assert ns == ns[..i] + ([ns[i]] + ns[i + 1..]);
    ViewsConcat(scope, ns[..i], [ns[i]] + ns[i + 1..]);
    ViewsConcat(scope, [ns[i]], ns[i + 1..]);
    assert ViewsOf(scope, [ns[i]], false) == [ViewOf(scope, ns[i], false)] by {
      assert [ns[i]][1..] == [];
    }
  }

  /** Removing by path takes exactly one element out of the view and leaves the rest as it was. */
  lemma {:induction false} RemovalInView(ctx: Context, n: Node, path: seq<nat>)
    requires ElementPath(n, path)
    ensures ViewPathOk(ViewOf(ctx, n, false), ViewPath(n, path))
    ensures ViewOf(ctx, RemoveAt(n, path), false) == ViewRemoveAt(ViewOf(ctx, n, false), ViewPath(n, path))
    decreases path
  {
    hide ViewAttrs, Decls, Visible;
    var i := path[0];
    var scope := ctx + Decls(n.attrs);
    var vs := ViewsOf(scope, n.child, false);
    var k := Visible(n.child[..i]);
    ViewsSplit(scope, n.child, i);
    assert vs[..k] == ViewsOf(scope, n.child[..i], false) && vs[k] == ViewOf(scope, n.child[i], false)
        && vs[k + 1..] == ViewsOf(scope, n.child[i + 1..], false);
    if |path| == 1 {
      ViewsConcat(scope, n.child[..i], n.child[i + 1..]);
    } else {
      RemovalInView(scope, n.child[i], path[1..]);
      var child := n.child[i := RemoveAt(n.child[i], path[1..])];
      ViewsSplit(scope, child, i);
      assert child[..i] == n.child[..i] && child[i + 1..] == n.child[i + 1..];
      assert ViewPath(n, path)[1..] == ViewPath(n.child[i], path[1..]);
      assert ViewsOf(scope, child, false) == vs[k := ViewOf(scope, child[i], false)];
    }
  }

  lemma {:induction false} AllWellScopedConcat(scope: Context, ms: seq<Node>, ns: seq<Node>)
    ensures AllWellScoped(scope, ms + ns) <==> AllWellScoped(scope, ms) && AllWellScoped(scope, ns)
  {
    if ms == [] {
      assert [] + ns == ns;
    } else {
      assert (ms + ns)[0] == ms[0] && (ms + ns)[1..] == ms[1..] + ns;
      AllWellScopedConcat(scope, ms[1..], ns);
    }
  }

  lemma AllWellScopedAt(scope: Context, ns: seq<Node>, i: nat)
    requires i < |ns|
    ensures AllWellScoped(scope, ns) <==>
      AllWellScoped(scope, ns[..i]) && WellScoped(scope, ns[i]) && AllWellScoped(scope, ns[i + 1..])
  {
    assert ns == ns[..i] + ns[i..] && ns[i..][1..] == ns[i + 1..];
    AllWellScopedConcat(scope, ns[..i], ns[i..]);
  }

  lemma {:induction false} RemovalWellScoped(ctx: Context, n: Node, path: seq<nat>)
    requires ElementPath(n, path) && WellScoped(ctx, n)
    ensures WellScoped(ctx, RemoveAt(n, path))
    decreases path
  {
    hide AllWellScoped, Plain;
    var i := path[0];
    var scope := ctx + Decls(n.attrs);
    AllWellScopedAt(scope, n.child, i);
    if |path| == 1 {
      AllWellScopedConcat(scope, n.child[..i], n.child[i + 1..]);
    } else {
      RemovalWellScoped(scope, n.child[i], path[1..]);
      var child := n.child[i := RemoveAt(n.child[i], path[1..])];
      AllWellScopedAt(scope, child, i);
      assert child[..i] == n.child[..i] && child[i + 1..] == n.child[i + 1..];
    }
  }

  lemma {:induction false} AllCanonicalConcat(declared: Context, ms: seq<Node>, ns: seq<Node>)
    ensures AllCanonical(declared, ms + ns, {}, false)
       <==> AllCanonical(declared, ms, {}, false) && AllCanonical(declared, ns, {}, false)
  {
    hide Canonical;
    if ms == [] {
      assert [] + ns == ns;
    } else {
      assert (ms + ns)[0] == ms[0] && (ms + ns)[1..] == ms[1..] + ns;
      AllCanonicalConcat(declared, ms[1..], ns);
    }
  }

  lemma AllCanonicalAt(declared: Context, ns: seq<Node>, i: nat)
    requires i < |ns| && !ns[i].Comment?
    ensures AllCanonical(declared, ns, {}, false) <==>
      && AllCanonical(declared, ns[..i], {}, false)
      && Canonical(declared, ns[i], {}, false)
      && AllCanonical(declared, ns[i + 1..], {}, false)
  {
    hide Canonical;
    assert ns == ns[..i] + ns[i..] && ns[i..][1..] == ns[i + 1..];
    AllCanonicalConcat(declared, ns[..i], ns[i..]);
  }

  /** Taking an element out of a canonical tree leaves a canonical tree. */
  lemma {:induction false} RemovalCanonical(declared: Context, n: Node, path: seq<nat>)
    requires ElementPath(n, path) && Canonical(declared, n, {}, false)
    ensures Canonical(declared, RemoveAt(n, path), {}, false)
    decreases path
  {
    hide AllCanonical;
    var i := path[0];
    var inner := declared + Decls(n.attrs);
    AllCanonicalAt(inner, n.child, i);
    var child := n.child[..i] + n.child[i + 1..];
    if |path| == 1 {
      AllCanonicalConcat(inner, n.child[..i], n.child[i + 1..]);
    } else {
      RemovalCanonical(inner, n.child[i], path[1..]);
      child := n.child[i := RemoveAt(n.child[i], path[1..])];
      AllCanonicalAt(inner, child, i);
      assert child[..i] == n.child[..i] && child[i + 1..] == n.child[i + 1..];
    }
    CanonicalChildren(declared, n, child);
  }

  lemma CanonicalChildren(declared: Context, n: Node, child: seq<Node>)
    requires n.Element? && Canonical(declared, n, {}, false)
    requires AllCanonical(declared + Decls(n.attrs), child, {}, false)
    ensures Canonical(declared, n.(child := child), {}, false)
  {
    hide AllCanonical, Plain;
    assert OwnPrefixes(n.(child := child)) == OwnPrefixes(n);
    assert Utilized(n.(child := child), {}) == Utilized(n, {});
  }

  // ---------------------------------------------------------------- what a signature covers

  /** The tree that is digested to verify the signature at `path` in `x`. */
  ghost function Verified(ctx: Context, x: Node, path: seq<nat>): Result<Node, NsError>
    requires ElementPath(x, path)
  {
    Exc(ctx, DEFAULT_CONTEXT, RemoveAt(x, path), {}, false)
  }

  /** The digest verifies if and only if, but for the Signature, the received view is the signed one. */
  lemma VerifiesExactlyTheView(ctx: Context, x: Node, path: seq<nat>, signed: Node)
    requires GoodContext(ctx) && WellScoped(ctx, x) && ElementPath(x, path)
    requires WellScoped(DEFAULT_CONTEXT, signed)
    ensures ViewPathOk(ViewOf(ctx, x, false), ViewPath(x, path))
    ensures Verified(ctx, x, path) == C14n(signed, {}, false)
       <==> ViewRemoveAt(ViewOf(ctx, x, false), ViewPath(x, path)) == ViewOf(DEFAULT_CONTEXT, signed, false)
  {
    RemovalInView(ctx, x, path);
    RemovalWellScoped(ctx, x, path);
    CanonicalForm(ctx, DEFAULT_CONTEXT, DEFAULT_CONTEXT, RemoveAt(x, path), signed, false);
  }

  /** Signing an element: `digested` is what is hashed, and `sig` is put into it at `path` before the
      whole is put in canonical form. */
  ghost predicate SignedAt(t: Node, digested: Node, path: seq<nat>, sig: Node, whole: Node) {
    && C14n(t, {}, false) == Ok(digested) && sig.Element? && InsertPath(digested, path)
    && C14n(InsertAt(digested, path, sig), {}, false) == Ok(whole)
  }

  lemma {:induction false} AllVisible(declared: Context, ns: seq<Node>, i: nat)
    requires AllCanonical(declared, ns, {}, false) && i <= |ns|
    ensures Visible(ns[..i]) == i
    ensures i < |ns| ==> !ns[i].Comment? && Canonical(declared, ns[i], {}, false)
  {
    if i > 0 {
      AllVisible(declared, ns[1..], i - 1);
      assert ns[..i][1..] == ns[1..][..i - 1];
    }
  }

  /** In a canonical tree a path is the same as in its view. */
  lemma {:induction false} PathFromView(declared: Context, n: Node, path: seq<nat>)
    requires Canonical(declared, n, {}, false) && ViewPathOk(ViewOf(declared, n, false), path)
    ensures ElementPath(n, path) && ViewPath(n, path) == path
    decreases path
  {
    hide Utilized, OwnPrefixes, Decls, DeclsError, ViewAttrs, Visible;
    var i := path[0];
    var inner := declared + Decls(n.attrs);
    AllVisible(inner, n.child, |n.child|);
    assert n.child[..|n.child|] == n.child;
    ViewsConcat(inner, n.child, []);
    AllVisible(inner, n.child, i);
    ViewsSplit(inner, n.child, i);
    assert ViewOf(declared, n, false).child[i] == ViewOf(inner, n.child[i], false);
    if |path| > 1 {
      PathFromView(inner, n.child[i], path[1..]);
    }
  }

  lemma {:induction false} PathOfInserted(declared: Context, n: Node, path: seq<nat>, s: Node)
    requires Canonical(declared, n, {}, false) && InsertPath(n, path) && s.Element?
    ensures ElementPath(InsertAt(n, path, s), path) && ViewPath(InsertAt(n, path, s), path) == path
    decreases path
  {
    var i := path[0];
    var inner := declared + Decls(n.attrs);
    RemoveInserted(n, path, s);
    AllVisible(inner, n.child, i);
    var whole := InsertAt(n, path, s);
    assert whole.child[..i] == n.child[..i];
    if |path| > 1 {
      PathOfInserted(inner, n.child[i], path[1..], s);
    }
  }

  /** Putting a signature into the digested tree and canonicalizing the whole changes nothing but the
      signature: removing it by its path gives the digested tree. */
  lemma RemovalRestoresDigested(t: Node, digested: Node, path: seq<nat>, sig: Node, whole: Node)
    requires SignedAt(t, digested, path, sig, whole)
    ensures ElementPath(whole, path) && ViewPath(whole, path) == path && RemoveAt(whole, path) == digested
    ensures Canonical(DEFAULT_CONTEXT, whole, {}, false) && WellScoped(DEFAULT_CONTEXT, whole)
  {
    hide Canonical, Exc, ViewOf;
    var inserted := InsertAt(digested, path, sig);
    OutputCanonical(DEFAULT_CONTEXT, DEFAULT_CONTEXT, t, {}, false);
    OutputCanonical(DEFAULT_CONTEXT, DEFAULT_CONTEXT, inserted, {}, false);
    KeepsView(DEFAULT_CONTEXT, DEFAULT_CONTEXT, inserted, {}, false);
    PathOfInserted(DEFAULT_CONTEXT, digested, path, sig);
    RemovalInView(DEFAULT_CONTEXT, inserted, path);
    PathFromView(DEFAULT_CONTEXT, whole, path);
    RemoveInserted(digested, path, sig);
    RemovalInView(DEFAULT_CONTEXT, whole, path);
    RemovalCanonical(DEFAULT_CONTEXT, whole, path);
    SameCanonical(RemoveAt(whole, path), digested);
    CanonicalUnchanged(DEFAULT_CONTEXT, whole, {}, false);
    SucceedsWhenWellScoped(DEFAULT_CONTEXT, DEFAULT_CONTEXT, whole, {}, false);
  }

  lemma SameCanonical(m: Node, n: Node)
    requires Canonical(DEFAULT_CONTEXT, m, {}, false) && Canonical(DEFAULT_CONTEXT, n, {}, false)
    requires ViewOf(DEFAULT_CONTEXT, m, false) == ViewOf(DEFAULT_CONTEXT, n, false)
    ensures m == n
  {
    CanonicalUnchanged(DEFAULT_CONTEXT, m, {}, false);
    CanonicalUnchanged(DEFAULT_CONTEXT, n, {}, false);
    SucceedsWhenWellScoped(DEFAULT_CONTEXT, DEFAULT_CONTEXT, m, {}, false);
    SucceedsWhenWellScoped(DEFAULT_CONTEXT, DEFAULT_CONTEXT, n, {}, false);
    SameViewSameForm(DEFAULT_CONTEXT, DEFAULT_CONTEXT, DEFAULT_CONTEXT, m, n, false);
  }

  /** An attribute which declares a prefix that nothing in the element uses, as `Assertion.Element`
      adds for `xs`. */
  ghost predicate Unused(e: Node, a: Attr)
    requires e.Element?
  {
    && IsDecl(a) && DeclError(a).None? && DeclPrefix(a) !in OwnPrefixes(e) + FreeAmong(e.child)
  }

  lemma UnusedChangesNothing(ctx: Context, e: Node, a: Attr)
    requires e.Element? && Unused(e, a)
    ensures var f := e.(attrs := e.attrs + [a]);
            && ViewOf(ctx, f, false) == ViewOf(ctx, e, false)
            && Free(f) == Free(e)
            && (WellScoped(ctx, e) ==> WellScoped(ctx, f))
  {
    var f := e.(attrs := e.attrs + [a]);
    DeclsAppend(e.attrs, a);
    assert forall b :: b in f.attrs <==> b in e.attrs || b == a;
    assert Plain(f.attrs) == Plain(e.attrs);
    assert OwnPrefixes(f) == OwnPrefixes(e);
    var c, d := ctx + Decls(f.attrs), ctx + Decls(e.attrs);
    assert Agree(c, d, OwnPrefixes(e) + FreeAmong(e.child));
    OwnViewWhenAgree(c, d, e);
    SamePlainSameViews(c, f.attrs, e.attrs);
    SameViewsWhenAgree(c, d, e.child, false);
    DeclsErrorNone(e.attrs);
    DeclsErrorNone(f.attrs);
    if WellScoped(ctx, e) {
      AllWellScopedBinds(d, e.child);
      AllWellScopedWhenBound(d, c, e.child);
    }
  }

  lemma PlacedScoping(whole: Node, extra: Attr, ctx: Context)
    requires whole.Element? && WellScoped(DEFAULT_CONTEXT, whole) && Unused(whole, extra) && GoodContext(ctx)
    ensures WellScoped(ctx, whole.(attrs := whole.attrs + [extra]))
    ensures Detach(ctx, whole.(attrs := whole.attrs + [extra])).Ok?
  {
    hide Free, Unused;
    var placed := whole.(attrs := whole.attrs + [extra]);
    UnusedChangesNothing(DEFAULT_CONTEXT, whole, extra);
    WellScopedBinds(DEFAULT_CONTEXT, placed);
    WellScopedWhenBound(DEFAULT_CONTEXT, ctx, placed);
  }

  lemma SamePath(m: Node, n: Node, path: seq<nat>)
    requires m.Element? && n.Element? && m.child == n.child && ElementPath(m, path)
    ensures ElementPath(n, path) && ViewPath(n, path) == ViewPath(m, path)
    ensures RemoveAt(n, path).child == RemoveAt(m, path).child
    ensures RemoveAt(n, path) == n.(child := RemoveAt(m, path).child)
  {
  }

  lemma {:induction false} FreeAmongConcat(ms: seq<Node>, ns: seq<Node>)
    ensures FreeAmong(ms + ns) == FreeAmong(ms) + FreeAmong(ns)
  {
    hide Free;
    if ms == [] {
      assert [] + ns == ns;
    } else {
      assert (ms + ns)[0] == ms[0] && (ms + ns)[1..] == ms[1..] + ns;
      FreeAmongConcat(ms[1..], ns);
    }
  }

  lemma {:induction false} RemovalFree(n: Node, path: seq<nat>)
    requires ElementPath(n, path)
    ensures FreeAmong(RemoveAt(n, path).child) <= FreeAmong(n.child) && Free(RemoveAt(n, path)) <= Free(n)
    decreases path
  {
    hide Plain;
    var i := path[0];
    FreeAmongAt(n.child, i);
    if |path| == 1 {
      FreeAmongConcat(n.child[..i], n.child[i + 1..]);
    } else {
      RemovalFree(n.child[i], path[1..]);
      var child := n.child[i := RemoveAt(n.child[i], path[1..])];
      FreeAmongAt(child, i);
      assert child[..i] == n.child[..i] && child[i + 1..] == n.child[i + 1..];
    }
  }

  lemma FreeAmongAt(ns: seq<Node>, i: nat)
    requires i < |ns|
    ensures FreeAmong(ns) == FreeAmong(ns[..i]) + Free(ns[i]) + FreeAmong(ns[i + 1..])
  {
    hide Free;
    assert ns == ns[..i] + ns[i..] && ns[i..][1..] == ns[i + 1..];
    FreeAmongConcat(ns[..i], ns[i..]);
  }

  /** Free prefixes of what is signed on its own: only the default one can be given another meaning. */
  lemma FreeOfClosed(n: Node, ctx: Context)
    requires WellScoped(DEFAULT_CONTEXT, n) && GoodContext(ctx)
    ensures Agree(ctx, DEFAULT_CONTEXT, Free(n)) <==> (DEFAULT_PREFIX in Free(n) ==> ctx[DEFAULT_PREFIX] == XML_NAMESPACE)
  {
    hide Free;
    WellScopedBinds(DEFAULT_CONTEXT, n);
    if DEFAULT_PREFIX in Free(n) && Agree(ctx, DEFAULT_CONTEXT, Free(n)) {
      assert Lookup(ctx, DEFAULT_PREFIX) == Lookup(DEFAULT_CONTEXT, DEFAULT_PREFIX);
    }
  }

  /** The view of the received element without its signature, once detached from its document. */
  lemma DetachedRemovalView(ctx: Context, placed: Node, path: seq<nat>)
    requires GoodContext(ctx) && WellScoped(ctx, placed) && ElementPath(placed, path)
    ensures Detach(ctx, placed).Ok? && ElementPath(Detach(ctx, placed).value, path)
    ensures WellScoped(DEFAULT_CONTEXT, Detach(ctx, placed).value)
    ensures ViewOf(DEFAULT_CONTEXT, RemoveAt(Detach(ctx, placed).value, path), false)
         == ViewOf(ctx, RemoveAt(placed, path), false)
  {
    hide ViewOf, RemoveAt;
    DetachKeepsView(ctx, placed, false);
    var x := Detach(ctx, placed).value;
    SamePath(placed, x, path);
    RemovalInView(DEFAULT_CONTEXT, x, path);
    RemovalInView(ctx, placed, path);
  }

  /** Signing and verifying agree on what is digested. The signed element, with an unused declaration
      added, is placed in a document where `ctx` is in scope, and detached from it to be verified. The
      result is the digested tree if and only if the document does not give a default namespace to
      names which were signed without one. */
  lemma SignThenVerify(t: Node, digested: Node, path: seq<nat>, sig: Node, whole: Node, extra: Attr, ctx: Context)
    requires SignedAt(t, digested, path, sig, whole) && Unused(whole, extra) && GoodContext(ctx)
    ensures var placed := whole.(attrs := whole.attrs + [extra]);
            && Detach(ctx, placed).Ok?
            && ElementPath(Detach(ctx, placed).value, path)
            && (Verified(DEFAULT_CONTEXT, Detach(ctx, placed).value, path) == Ok(digested)
                <==> (DEFAULT_PREFIX in Free(digested) ==> ctx[DEFAULT_PREFIX] == XML_NAMESPACE))
  {
    hide Canonical, Exc, ViewOf, WellScoped, Free, FreeAmong, RemoveAt, Detach, OwnPrefixes, GoodContext;
    RemovalRestoresDigested(t, digested, path, sig, whole);
    var placed := whole.(attrs := whole.attrs + [extra]);
    PlacedScoping(whole, extra, ctx);
    SamePath(whole, placed, path);
    SamePath(whole, whole, path);
    DetachedRemovalView(ctx, placed, path);
    assert RemoveAt(placed, path) == digested.(attrs := digested.attrs + [extra]);
    RemovalFree(whole, path);
    RemovalOwn(whole, path);
    UnusedChangesNothing(ctx, digested, extra);
    SameViewWhenAgree(ctx, DEFAULT_CONTEXT, digested, false);
    DigestedFixed(t, digested);
    RemovalInView(DEFAULT_CONTEXT, Detach(ctx, placed).value, path);
    VerifiesExactlyTheView(DEFAULT_CONTEXT, Detach(ctx, placed).value, path, digested);
    FreeOfClosed(digested, ctx);
  }

  const BARE_SIGNED: Node := Element("", "a", [], [])
  const BARE_SIGNATURE: Node := Element("", "s", [], [])
  const XS: Attr := Attr(XMLNS_PREFIX, "xs", "http://www.w3.org/2001/XMLSchema")

  /** An input whose verification fails: an unprefixed element, signed on its own, and then put into a document
      that has a default namespace. */
  lemma SignedWithoutDefault()
    ensures var whole := BARE_SIGNED.(child := [BARE_SIGNATURE]);
            var ctx := DEFAULT_CONTEXT[DEFAULT_PREFIX := "d"];
            var placed := whole.(attrs := whole.attrs + [XS]);
            && SignedAt(BARE_SIGNED, BARE_SIGNED, [0], BARE_SIGNATURE, whole) && Unused(whole, XS)
            && Detach(ctx, placed).Ok? && ElementPath(Detach(ctx, placed).value, [0])
            && Verified(DEFAULT_CONTEXT, Detach(ctx, placed).value, [0]) != Ok(BARE_SIGNED)
  {
    var whole := BARE_SIGNED.(child := [BARE_SIGNATURE]);
    BareCanonical();
    assert InsertAt(BARE_SIGNED, [0], BARE_SIGNATURE) == whole;
    BareFree();
    hide C14n, Canonical, Verified, Free, FreeAmong, Detach;
    SignThenVerify(BARE_SIGNED, BARE_SIGNED, [0], BARE_SIGNATURE, whole, XS, DEFAULT_CONTEXT[DEFAULT_PREFIX := "d"]);
  }

  lemma BareFree()
    ensures Free(BARE_SIGNED) == {DEFAULT_PREFIX}
    ensures Unused(BARE_SIGNED.(child := [BARE_SIGNATURE]), XS)
  {
    assert [BARE_SIGNATURE][1..] == [];
    assert OwnPrefixes(BARE_SIGNED) == OwnPrefixes(BARE_SIGNATURE) == {DEFAULT_PREFIX};
    assert FreeAmong([BARE_SIGNATURE]) == {DEFAULT_PREFIX};
  }

  lemma BareCanonical()
    ensures C14n(BARE_SIGNED, {}, false) == Ok(BARE_SIGNED)
    ensures var whole := BARE_SIGNED.(child := [BARE_SIGNATURE]);
            C14n(whole, {}, false) == Ok(whole)
  {
    var whole := BARE_SIGNED.(child := [BARE_SIGNATURE]);
    assert [BARE_SIGNATURE][1..] == [] && DEFAULT_CONTEXT + map[] == DEFAULT_CONTEXT;
    assert Canonical(DEFAULT_CONTEXT, BARE_SIGNED, {}, false);
    assert Canonical(DEFAULT_CONTEXT, BARE_SIGNATURE, {}, false);
    assert AllCanonical(DEFAULT_CONTEXT, [BARE_SIGNATURE], {}, false);
    hide Exc;
    FixedPoints(DEFAULT_CONTEXT, BARE_SIGNED, {}, false);
    FixedPoints(DEFAULT_CONTEXT, whole, {}, false);
  }

  lemma RemovalOwn(n: Node, path: seq<nat>)
    requires ElementPath(n, path)
    ensures OwnPrefixes(RemoveAt(n, path)) == OwnPrefixes(n) && RemoveAt(n, path).attrs == n.attrs
  {
  }

  lemma DigestedFixed(t: Node, digested: Node)
    requires C14n(t, {}, false) == Ok(digested)
    ensures WellScoped(DEFAULT_CONTEXT, digested) && C14n(digested, {}, false) == Ok(digested)
  {
    hide Canonical, Exc, WellScoped;
    Idempotent(DEFAULT_CONTEXT, DEFAULT_CONTEXT, t, {}, false);
    SucceedsWhenWellScoped(DEFAULT_CONTEXT, DEFAULT_CONTEXT, digested, {}, false);
  }

  /** The SignedInfo that is signed and the one that is verified, each detached from the context it
      was in, have the same canonical form if and only if those contexts agree on its free prefixes. */
  lemma SignedInfoAgrees(c: Context, d: Context, signedInfo: Node)
    requires GoodContext(c) && GoodContext(d) && signedInfo.Element?
    requires WellScoped(c, signedInfo) && WellScoped(d, signedInfo)
    ensures Detach(c, signedInfo).Ok? && Detach(d, signedInfo).Ok?
    ensures C14n(Detach(c, signedInfo).value, {}, false) == C14n(Detach(d, signedInfo).value, {}, false)
       <==> Agree(c, d, Free(signedInfo))
  {
    hide Exc, ViewOf, Free;
    DetachKeepsForm(c, signedInfo, false);
    DetachKeepsForm(d, signedInfo, false);
    CanonicalForm(c, d, DEFAULT_CONTEXT, signedInfo, signedInfo, false);
    SameViewWhenAgree(c, d, signedInfo, false);
  }
}
