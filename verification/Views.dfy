/** What an element means in a context: the reference against which the rewrites are judged.

    A view resolves every used prefix to its namespace and forgets the rest of the syntax: which
    declarations there are and where, the order of the attributes and, on request, comments. */
module Views {
  import opened Wrappers
  import opened Xml

  datatype ViewAttr = ViewAttr(attr: Attr, namespace: Option<string>)

  datatype View =
    | ViewElement(space: string, namespace: Option<string>, tag: Name, attrs: set<ViewAttr>, child: seq<View>)
    | ViewLeaf(leaf: Node)

  /** An unprefixed attribute is in no namespace, whatever the default one is. */
  function AttrNamespace(scope: Context, a: Attr): Option<string> {
    if a.space == DEFAULT_PREFIX then None else Lookup(scope, a.space)
  }

  ghost function ViewAttrs(scope: Context, attrs: seq<Attr>): set<ViewAttr> {
    set a | a in Plain(attrs) :: ViewAttr(a, AttrNamespace(scope, a))
  }

  /** The view of `n` where `ctx` is in scope. A `with` of true keeps comments. */
  ghost function ViewOf(ctx: Context, n: Node, with: bool): View
    decreases n, 1
  {
    match n
    case Element(space, tag, attrs, child) =>
      var scope := ctx + Decls(attrs);
      ViewElement(space, Lookup(scope, space), tag, ViewAttrs(scope, attrs), ViewsOf(scope, child, with))
    case _ => ViewLeaf(n)
  }

  ghost function ViewsOf(scope: Context, ns: seq<Node>, with: bool): seq<View>
    decreases ns, 0
  {
    if ns == [] then []
    else if ns[0].Comment? && !with then ViewsOf(scope, ns[1..], with)
    else [ViewOf(scope, ns[0], with)] + ViewsOf(scope, ns[1..], with)
  }

  /** Every declaration is allowed and every used prefix is in scope. */
  ghost predicate WellScoped(ctx: Context, n: Node)
    decreases n, 1
  {
    n.Element? ==>
      var scope := ctx + Decls(n.attrs);
      && DeclsError(n.attrs).None?
      && OwnPrefixes(n) <= scope.Keys
      && AllWellScoped(scope, n.child)
  }

  ghost predicate AllWellScoped(scope: Context, ns: seq<Node>)
    decreases ns, 0
  {
    ns != [] ==> WellScoped(scope, ns[0]) && AllWellScoped(scope, ns[1..])
  }

  /** The prefixes that `n` uses but does not itself bind. */
  ghost function Free(n: Node): set<string>
    decreases n, 1
  {
    if n.Element? then (OwnPrefixes(n) + FreeAmong(n.child)) - Decls(n.attrs).Keys else {}
  }

  ghost function FreeAmong(ns: seq<Node>): set<string>
    decreases ns, 0
  {
    if ns == [] then {} else Free(ns[0]) + FreeAmong(ns[1..])
  }

  ghost predicate Agree(c: Context, d: Context, prefixes: set<string>) {
    forall p :: p in prefixes ==> Lookup(c, p) == Lookup(d, p)
  }

  /** Two contexts give a tree the same view if and only if they agree on its free prefixes. */
  lemma {:induction false} SameViewWhenAgree(c: Context, d: Context, n: Node, with: bool)
    ensures ViewOf(c, n, with) == ViewOf(d, n, with) <==> Agree(c, d, Free(n))
    decreases n, 1
  {
    if n.Element? {
      var ds := Decls(n.attrs);
      OwnViewWhenAgree(c + ds, d + ds, n);
      SameViewsWhenAgree(c + ds, d + ds, n.child, with);
      AgreeInside(c, d, ds, OwnPrefixes(n) + FreeAmong(n.child));
    }
  }

  lemma AgreeInside(c: Context, d: Context, ds: Context, prefixes: set<string>)
    ensures Agree(c + ds, d + ds, prefixes) <==> Agree(c, d, prefixes - ds.Keys)
  {
    forall p ensures p in ds ==> Lookup(c + ds, p) == Lookup(d + ds, p)
             ensures p !in ds ==> Lookup(c + ds, p) == Lookup(c, p) && Lookup(d + ds, p) == Lookup(d, p) {}
    if Agree(c + ds, d + ds, prefixes) {
      forall p | p in prefixes - ds.Keys ensures Lookup(c, p) == Lookup(d, p) {
        assert Lookup(c + ds, p) == Lookup(d + ds, p);
      }
    }
  }

  lemma OwnViewWhenAgree(c: Context, d: Context, e: Node)
    requires e.Element?
    ensures Lookup(c, e.space) == Lookup(d, e.space) && ViewAttrs(c, e.attrs) == ViewAttrs(d, e.attrs)
       <==> Agree(c, d, OwnPrefixes(e))
  {
    if Agree(c, d, OwnPrefixes(e)) {
      ViewAttrsAgree(c, d, e);
    }
    if Lookup(c, e.space) == Lookup(d, e.space) && ViewAttrs(c, e.attrs) == ViewAttrs(d, e.attrs) {
      ViewAttrsInjective(c, d, e.attrs, e.attrs);
      forall p | p in OwnPrefixes(e) ensures Lookup(c, p) == Lookup(d, p) {
        if p != e.space {
          var a :| a in Plain(e.attrs) && a.space != DEFAULT_PREFIX && a.space == p;
          assert AttrNamespace(c, a) == AttrNamespace(d, a);
        }
      }
    }
  }

  lemma {:induction false} SameViewsWhenAgree(c: Context, d: Context, ns: seq<Node>, with: bool)
    ensures ViewsOf(c, ns, with) == ViewsOf(d, ns, with) <==> Agree(c, d, FreeAmong(ns))
    decreases ns, 0
  {
    if ns != [] {
      SameViewsWhenAgree(c, d, ns[1..], with);
      SameViewWhenAgree(c, d, ns[0], with);
      if !(ns[0].Comment? && !with) {
        var x, y := ViewsOf(c, ns, with), ViewsOf(d, ns, with);
        assert x[0] == ViewOf(c, ns[0], with) && x[1..] == ViewsOf(c, ns[1..], with);
        assert y[0] == ViewOf(d, ns[0], with) && y[1..] == ViewsOf(d, ns[1..], with);
      }
    }
  }

  lemma ViewAttrsAgree(c: Context, d: Context, e: Node)
    requires e.Element? && Agree(c, d, OwnPrefixes(e))
    ensures ViewAttrs(c, e.attrs) == ViewAttrs(d, e.attrs)
  {
    forall a | a in Plain(e.attrs) ensures AttrNamespace(c, a) == AttrNamespace(d, a) {
      if a.space != DEFAULT_PREFIX { assert a.space in OwnPrefixes(e); }
    }
  }

  /** Equal views have the same plain attributes and use the same prefixes. */
  lemma ViewAttrsInjective(c: Context, d: Context, s: seq<Attr>, t: seq<Attr>)
    requires ViewAttrs(c, s) == ViewAttrs(d, t)
    ensures Plain(s) == Plain(t)
    ensures forall a :: a in Plain(s) ==> AttrNamespace(c, a) == AttrNamespace(d, a)
  {
    PlainWithin(c, d, s, t);
    PlainWithin(d, c, t, s);
  }

  lemma PlainWithin(c: Context, d: Context, s: seq<Attr>, t: seq<Attr>)
    requires ViewAttrs(c, s) <= ViewAttrs(d, t)
    ensures Plain(s) <= Plain(t)
    ensures forall a :: a in Plain(s) ==> AttrNamespace(c, a) == AttrNamespace(d, a)
  {
    forall a | a in Plain(s) ensures a in Plain(t) && AttrNamespace(c, a) == AttrNamespace(d, a) {
      assert ViewAttr(a, AttrNamespace(c, a)) in ViewAttrs(c, s);
    }
  }

  /** A well-scoped element stays so in any context that binds its free prefixes. */
  lemma {:induction false} WellScopedWhenBound(c: Context, d: Context, n: Node)
    requires WellScoped(c, n) && Free(n) <= d.Keys
    ensures WellScoped(d, n)
    decreases n, 1
  {
    if n.Element? {
      var ds := Decls(n.attrs);
      AllWellScopedWhenBound(c + ds, d + ds, n.child);
    }
  }

  lemma {:induction false} AllWellScopedWhenBound(c: Context, d: Context, ns: seq<Node>)
    requires AllWellScoped(c, ns) && FreeAmong(ns) <= d.Keys
    ensures AllWellScoped(d, ns)
    decreases ns, 0
  {
    if ns != [] {
      WellScopedWhenBound(c, d, ns[0]);
      AllWellScopedWhenBound(c, d, ns[1..]);
    }
  }

  lemma {:induction false} WellScopedBinds(c: Context, n: Node)
    requires WellScoped(c, n)
    ensures Free(n) <= c.Keys
    decreases n, 1
  {
    if n.Element? {
      AllWellScopedBinds(c + Decls(n.attrs), n.child);
    }
  }

  lemma {:induction false} AllWellScopedBinds(c: Context, ns: seq<Node>)
    requires AllWellScoped(c, ns)
    ensures FreeAmong(ns) <= c.Keys
    decreases ns, 0
  {
    if ns != [] {
      WellScopedBinds(c, ns[0]);
      AllWellScopedBinds(c, ns[1..]);
    }
  }
}
