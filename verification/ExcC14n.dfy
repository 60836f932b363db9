/** Exclusive canonicalization, internal/dsig/etreeutils/canonicalize.go.

    `Exc` is `transformExcC14n` as a function of the tree. The in-place version is in the Etree
    module and is proved to compute it. */
module ExcC14n {
  import opened Wrappers
  import opened Xml
  import opened AttrOrder
  import opened Views

  /** The prefixes that the output element has to have declared: those its names use, and those it
      declares that are on the inclusive list. */
  ghost function Utilized(e: Node, inclusive: set<string>): set<string>
    requires e.Element?
  {
    OwnPrefixes(e) + (Decls(e.attrs).Keys * inclusive)
  }

  predicate AlreadyDeclared(declared: Context, scope: Context, p: string) {
    p in declared && p in scope && declared[p] == scope[p]
  }

  /** The prefixes to declare at `e`. */
  ghost function Missing(declared: Context, scope: Context, e: Node, inclusive: set<string>): set<string>
    requires e.Element?
  {
    set p | p in Utilized(e, inclusive) && !AlreadyDeclared(declared, scope, p)
  }

  ghost function Bindings(scope: Context, prefixes: set<string>): Context {
    map p | p in prefixes && p in scope :: scope[p]
  }

  ghost function DeclAttrs(m: Context): set<Attr> {
    set p | p in m :: DeclAttr(p, m[p])
  }

  /** `scope` is what the input has in scope around `n`, and `declared` what the output has. */
  ghost function Exc(scope: Context, declared: Context, n: Node, inclusive: set<string>, comments: bool)
    : Result<Node, NsError>
    decreases n, 1
  {
    if !n.Element? then Ok(n)
    else
      var inner :- SubContext(scope, n.attrs);
      var missing := Missing(declared, inner, n, inclusive);
      if !(missing <= inner.Keys) then Err(UndeclaredPrefix)
      else
        var added := Bindings(inner, missing);
        var child :- ExcAll(inner, declared + added, n.child, inclusive, comments);
        Ok(Element(n.space, n.tag, Redeclare(n.attrs, added), child))
  }

  ghost function ExcAll(scope: Context, declared: Context, ns: seq<Node>, inclusive: set<string>, comments: bool)
    : Result<seq<Node>, NsError>
    decreases ns, 0
  {
    if ns == [] then Ok([])
    else if ns[0].Comment? && !comments then ExcAll(scope, declared, ns[1..], inclusive, comments)
    else
      var first :- Exc(scope, declared, ns[0], inclusive, comments);
      var rest :- ExcAll(scope, declared, ns[1..], inclusive, comments);
      Ok([first] + rest)
  }

  /** `TransformExcC14n` of an element with nothing around it. */
  ghost function C14n(n: Node, inclusive: set<string>, comments: bool): Result<Node, NsError> {
    Exc(DEFAULT_CONTEXT, DEFAULT_CONTEXT, n, inclusive, comments)
  }

  // ---------------------------------------------------------------- when it succeeds

  /** It fails only on a declaration that is not allowed or a prefix that is not declared. */
  lemma {:induction false} SucceedsWhenWellScoped(
      scope: Context, declared: Context, n: Node, inclusive: set<string>, comments: bool)
    ensures Exc(scope, declared, n, inclusive, comments).Ok? <==> WellScoped(scope, n)
    decreases n, 1
  {
    if n.Element? && DeclsError(n.attrs).None? {
      var inner := scope + Decls(n.attrs);
      var missing := Missing(declared, inner, n, inclusive);
      assert missing <= inner.Keys <==> OwnPrefixes(n) <= inner.Keys;
      AllSucceedWhenWellScoped(inner, declared + Bindings(inner, missing), n.child, inclusive, comments);
    }
  }

  lemma {:induction false} AllSucceedWhenWellScoped(
      scope: Context, declared: Context, ns: seq<Node>, inclusive: set<string>, comments: bool)
    ensures ExcAll(scope, declared, ns, inclusive, comments).Ok? <==> AllWellScoped(scope, ns)
    decreases ns, 0
  {
    if ns != [] {
      SucceedsWhenWellScoped(scope, declared, ns[0], inclusive, comments);
      AllSucceedWhenWellScoped(scope, declared, ns[1..], inclusive, comments);
    }
  }

  // ---------------------------------------------------------------- the meaning is kept

  /** The plain attributes of `attrs` with the declarations of `m`, in order. */
  ghost function Redeclare(attrs: seq<Attr>, m: Context): seq<Attr> {
    Arrange(Plain(attrs) + DeclAttrs(m))
  }

  lemma RedeclareElements(attrs: seq<Attr>, m: Context)
    ensures forall a :: a in Redeclare(attrs, m) <==> a in Plain(attrs) || a in DeclAttrs(m)
    ensures Sorted(Redeclare(attrs, m))
  {
    hide AttrLess, Sorted, DeclAttrs, Plain;
  }

  lemma RedeclareDecls(attrs: seq<Attr>, m: Context)
    ensures Decls(Redeclare(attrs, m)) == m && Plain(Redeclare(attrs, m)) == Plain(attrs)
  {
    hide AttrLess, Sorted, Arrange, Redeclare, IsDecl, DeclAttr, DeclPrefix, Decls;
    RedeclareElements(attrs, m);
    var r := Redeclare(attrs, m);
    forall p | p in m ensures DeclAttr(p, m[p]) in r {
      assert DeclAttr(p, m[p]) in DeclAttrs(m);
    }
    DeclsAre(r, m);
  }

  predicate Declarable(m: Context) {
    && XML_PREFIX !in m && XMLNS_PREFIX !in m
    && (DEFAULT_PREFIX in m ==> m[DEFAULT_PREFIX] != XMLNS_NAMESPACE)
  }

  lemma RedeclareScope(ctx: Context, attrs: seq<Attr>, m: Context)
    requires Declarable(m)
    ensures SubContext(ctx, Redeclare(attrs, m)) == Ok(ctx + m)
  {
    hide AttrLess, Sorted, Arrange, Redeclare, Decls;
    RedeclareElements(attrs, m);
    RedeclareDecls(attrs, m);
    forall a | a in Redeclare(attrs, m) ensures DeclError(a).None? {}
    DeclsErrorNone(Redeclare(attrs, m));
  }

  /** The declarations on an output element are exactly the added ones, so that `declared` is what
      the output has in scope. */
  lemma OutputScope(declared: Context, inner: Context, e: Node, inclusive: set<string>)
    requires e.Element? && GoodContext(inner) && GoodContext(declared)
    ensures var added := Bindings(inner, Missing(declared, inner, e, inclusive));
            var attrs := Redeclare(e.attrs, added);
            && SubContext(declared, attrs) == Ok(declared + added)
            && Decls(attrs) == added && Plain(attrs) == Plain(e.attrs)
            && GoodContext(declared + added)
  {
    hide Redeclare, SubContext;
    var added := Bindings(inner, Missing(declared, inner, e, inclusive));
    assert Declarable(added);
    RedeclareDecls(e.attrs, added);
    RedeclareScope(declared, e.attrs, added);
  }

  /** The used prefixes mean the same in the output. */
  lemma AddedAgree(declared: Context, inner: Context, e: Node, inclusive: set<string>)
    requires e.Element? && Missing(declared, inner, e, inclusive) <= inner.Keys
    ensures Agree(declared + Bindings(inner, Missing(declared, inner, e, inclusive)), inner, Utilized(e, inclusive))
    ensures Utilized(e, inclusive) <= inner.Keys
    ensures OwnPrefixes(e) <= (declared + Bindings(inner, Missing(declared, inner, e, inclusive))).Keys
  {
    hide OwnPrefixes;
  }

  lemma SamePlainSameViews(scope: Context, s: seq<Attr>, t: seq<Attr>)
    requires Plain(s) == Plain(t)
    ensures ViewAttrs(scope, s) == ViewAttrs(scope, t)
  {
    hide Plain;
  }

  /** Every name of the output resolves as it did in the input. */
  lemma {:induction false} KeepsView(
      scope: Context, declared: Context, n: Node, inclusive: set<string>, comments: bool)
    requires GoodContext(scope) && GoodContext(declared)
    requires Exc(scope, declared, n, inclusive, comments).Ok?
    ensures ViewOf(declared, Exc(scope, declared, n, inclusive, comments).value, comments)
         == ViewOf(scope, n, comments)
    decreases n, 1
  {
    hide Redeclare, Missing, Bindings, ViewAttrs;
    if n.Element? {
      SubContextGood(scope, n.attrs);
      var inner := scope + Decls(n.attrs);
      OutputScope(declared, inner, n, inclusive);
      var missing := Missing(declared, inner, n, inclusive);
      var added := Bindings(inner, missing);
      AllKeepView(inner, declared + added, n.child, inclusive, comments);
      var out := Exc(scope, declared, n, inclusive, comments).value;
      AddedAgree(declared, inner, n, inclusive);
      ViewAttrsAgree(declared + added, inner, n);
      assert ViewAttrs(declared + added, out.attrs) == ViewAttrs(declared + added, n.attrs) by {
        SamePlainSameViews(declared + added, out.attrs, n.attrs);
      }
    }
  }

  lemma {:induction false} AllKeepView(
      scope: Context, declared: Context, ns: seq<Node>, inclusive: set<string>, comments: bool)
    requires GoodContext(scope) && GoodContext(declared)
    requires ExcAll(scope, declared, ns, inclusive, comments).Ok?
    ensures ViewsOf(declared, ExcAll(scope, declared, ns, inclusive, comments).value, comments)
         == ViewsOf(scope, ns, comments)
    decreases ns, 0
  {
    if ns != [] {
      if ns[0].Comment? && !comments {
        AllKeepView(scope, declared, ns[1..], inclusive, comments);
      } else {
        KeepsView(scope, declared, ns[0], inclusive, comments);
        AllKeepView(scope, declared, ns[1..], inclusive, comments);
        KindKept(scope, declared, ns[0], inclusive, comments);
      }
    }
  }

  lemma KindKept(scope: Context, declared: Context, n: Node, inclusive: set<string>, comments: bool)
    requires Exc(scope, declared, n, inclusive, comments).Ok?
    ensures var out := Exc(scope, declared, n, inclusive, comments).value;
            out.Element? == n.Element? && (!n.Element? ==> out == n)
  {
  }

  // ---------------------------------------------------------------- the form is canonical

  lemma SameViewSameBindings(c: Context, d: Context, declared: Context, m: Node, n: Node)
    requires m.Element? && n.Element? && m.space == n.space && Lookup(c, m.space) == Lookup(d, n.space)
    requires ViewAttrs(c, m.attrs) == ViewAttrs(d, n.attrs)
    requires OwnPrefixes(m) <= c.Keys && OwnPrefixes(n) <= d.Keys
    ensures Plain(m.attrs) == Plain(n.attrs)
    ensures Missing(declared, c, m, {}) == Missing(declared, d, n, {}) <= c.Keys * d.Keys
    ensures Bindings(c, Missing(declared, c, m, {})) == Bindings(d, Missing(declared, d, n, {}))
  {
    ViewAttrsInjective(c, d, m.attrs, n.attrs);
    assert OwnPrefixes(m) == OwnPrefixes(n);
    forall p | p in OwnPrefixes(m) ensures p in c && p in d && c[p] == d[p] {
      if p != m.space {
        var a :| a in Plain(m.attrs) && a.space != DEFAULT_PREFIX && a.space == p;
        assert AttrNamespace(c, a) == AttrNamespace(d, a);
      }
    }
  }

  /** Elements with the same view have the same canonical form, whatever declared their prefixes. */
  lemma {:induction false} SameViewSameForm(
      c: Context, d: Context, declared: Context, m: Node, n: Node, comments: bool)
    requires WellScoped(c, m) && WellScoped(d, n)
    requires ViewOf(c, m, comments) == ViewOf(d, n, comments)
    ensures Exc(c, declared, m, {}, comments) == Exc(d, declared, n, {}, comments)
    decreases m, 1
  {
    hide Arrange, Missing, Bindings, ViewAttrs, Plain, Utilized;
    if m.Element? && n.Element? {
      var c', d' := c + Decls(m.attrs), d + Decls(n.attrs);
      SameViewSameBindings(c', d', declared, m, n);
      var missing := Missing(declared, c', m, {});
      SameViewsSameForms(c', d', declared + Bindings(c', missing), m.child, n.child, comments);
    }
  }

  lemma {:induction false} SameViewsSameForms(
      c: Context, d: Context, declared: Context, ms: seq<Node>, ns: seq<Node>, comments: bool)
    requires AllWellScoped(c, ms) && AllWellScoped(d, ns)
    requires ViewsOf(c, ms, comments) == ViewsOf(d, ns, comments)
    ensures ExcAll(c, declared, ms, {}, comments) == ExcAll(d, declared, ns, {}, comments)
    decreases ms, |ns|
  {
    hide Exc, ViewOf, WellScoped;
    if ms != [] && ms[0].Comment? && !comments {
      SameViewsSameForms(c, d, declared, ms[1..], ns, comments);
    } else if ns != [] && ns[0].Comment? && !comments {
      SameViewsSameForms(c, d, declared, ms, ns[1..], comments);
    } else if ms != [] && ns != [] {
      var vs, ws := ViewsOf(c, ms, comments), ViewsOf(d, ns, comments);
      assert vs[0] == ViewOf(c, ms[0], comments) && ws[0] == ViewOf(d, ns[0], comments);
      assert vs[1..] == ViewsOf(c, ms[1..], comments) && ws[1..] == ViewsOf(d, ns[1..], comments);
      SameViewSameForm(c, d, declared, ms[0], ns[0], comments);
      SameViewsSameForms(c, d, declared, ms[1..], ns[1..], comments);
    }
  }

  /** Two elements, each in its own context, have the same canonical form if and only if they have
      the same view. */
  lemma CanonicalForm(c: Context, d: Context, declared: Context, m: Node, n: Node, comments: bool)
    requires GoodContext(c) && GoodContext(d) && GoodContext(declared)
    requires WellScoped(c, m) && WellScoped(d, n)
    ensures Exc(c, declared, m, {}, comments) == Exc(d, declared, n, {}, comments)
       <==> ViewOf(c, m, comments) == ViewOf(d, n, comments)
  {
    SucceedsWhenWellScoped(c, declared, m, {}, comments);
    SucceedsWhenWellScoped(d, declared, n, {}, comments);
    KeepsView(c, declared, m, {}, comments);
    KeepsView(d, declared, n, {}, comments);
    if ViewOf(c, m, comments) == ViewOf(d, n, comments) {
      SameViewSameForm(c, d, declared, m, n, comments);
    }
  }

  // ---------------------------------------------------------------- the form is minimal

  /** The shape of an output where `declared` is in scope: sorted attributes, no declaration that
      the element does not use or that repeats what is in scope, and no comments. */
  ghost predicate Canonical(declared: Context, n: Node, inclusive: set<string>, comments: bool)
    decreases n, 1
  {
    n.Element? ==>
      && Sorted(n.attrs)
      && (forall a :: a in n.attrs && IsDecl(a) ==>
            && DeclPrefix(a) in Utilized(n, inclusive)
            && Lookup(declared, DeclPrefix(a)) != Some(a.value)
            && Lookup(Decls(n.attrs), DeclPrefix(a)) == Some(a.value)
            && a == DeclAttr(DeclPrefix(a), a.value))
      && DeclsError(n.attrs).None?
      && OwnPrefixes(n) <= (declared + Decls(n.attrs)).Keys
      && AllCanonical(declared + Decls(n.attrs), n.child, inclusive, comments)
  }

  ghost predicate AllCanonical(declared: Context, ns: seq<Node>, inclusive: set<string>, comments: bool)
    decreases ns, 0
  {
    ns != [] ==>
      && (ns[0].Comment? ==> comments)
      && Canonical(declared, ns[0], inclusive, comments)
      && AllCanonical(declared, ns[1..], inclusive, comments)
  }

  lemma {:induction false} OutputCanonical(
      scope: Context, declared: Context, n: Node, inclusive: set<string>, comments: bool)
    requires GoodContext(scope) && GoodContext(declared)
    requires Exc(scope, declared, n, inclusive, comments).Ok?
    ensures Canonical(declared, Exc(scope, declared, n, inclusive, comments).value, inclusive, comments)
    decreases n, 1
  {
    hide Redeclare, Missing, Bindings, Sorted;
    if n.Element? {
      SubContextGood(scope, n.attrs);
      var inner := scope + Decls(n.attrs);
      OutputScope(declared, inner, n, inclusive);
      var missing := Missing(declared, inner, n, inclusive);
      var added := Bindings(inner, missing);
      AllOutputCanonical(inner, declared + added, n.child, inclusive, comments);
      var out := Exc(scope, declared, n, inclusive, comments).value;
      assert OwnPrefixes(out) == OwnPrefixes(n);
      AddedAgree(declared, inner, n, inclusive);
      RedeclareElements(n.attrs, added);
      AddedMinimal(declared, inner, n, out, inclusive);
    }
  }

  lemma AddedMinimal(declared: Context, inner: Context, e: Node, out: Node, inclusive: set<string>)
    requires e.Element? && out.Element? && OwnPrefixes(out) == OwnPrefixes(e)
    requires var added := Bindings(inner, Missing(declared, inner, e, inclusive));
             && out.attrs == Redeclare(e.attrs, added) && Decls(out.attrs) == added
    ensures forall a :: a in out.attrs && IsDecl(a) ==>
              && DeclPrefix(a) in Utilized(out, inclusive)
              && Lookup(declared, DeclPrefix(a)) != Some(a.value)
              && Lookup(Decls(out.attrs), DeclPrefix(a)) == Some(a.value)
              && a == DeclAttr(DeclPrefix(a), a.value)
  {
    hide Redeclare, Sorted, OwnPrefixes, Decls;
    var added := Bindings(inner, Missing(declared, inner, e, inclusive));
    RedeclareElements(e.attrs, added);
    forall a | a in out.attrs && IsDecl(a)
      ensures && DeclPrefix(a) in Utilized(out, inclusive)
              && Lookup(declared, DeclPrefix(a)) != Some(a.value)
              && Lookup(Decls(out.attrs), DeclPrefix(a)) == Some(a.value)
              && a == DeclAttr(DeclPrefix(a), a.value)
    {
      assert a in DeclAttrs(added);
    }
  }

  lemma {:induction false} AllOutputCanonical(
      scope: Context, declared: Context, ns: seq<Node>, inclusive: set<string>, comments: bool)
    requires GoodContext(scope) && GoodContext(declared)
    requires ExcAll(scope, declared, ns, inclusive, comments).Ok?
    ensures AllCanonical(declared, ExcAll(scope, declared, ns, inclusive, comments).value, inclusive, comments)
    decreases ns, 0
  {
    if ns != [] {
      AllOutputCanonical(scope, declared, ns[1..], inclusive, comments);
      if !(ns[0].Comment? && !comments) {
        OutputCanonical(scope, declared, ns[0], inclusive, comments);
        KindKept(scope, declared, ns[0], inclusive, comments);
      }
    }
  }

  /** Every element has its attributes in the order of kinds and, within a kind, of the local names as texts. */
  ghost predicate AllInTextOrder(n: Node) {
    n.Element? ==> InTextOrder(n.attrs) && forall c :: c in n.child ==> AllInTextOrder(c)
  }

  lemma {:induction false} CanonicalInText(declared: Context, n: Node, inclusive: set<string>, comments: bool)
    requires Canonical(declared, n, inclusive, comments)
    ensures AllInTextOrder(n)
    decreases n, 1
  {
    hide InTextOrder, Sorted, Plain, Decls, DeclsError;
    if n.Element? {
      SortedInText(n.attrs);
      AllCanonicalInText(declared + Decls(n.attrs), n.child, inclusive, comments);
    }
  }

  lemma {:induction false} AllCanonicalInText(declared: Context, ns: seq<Node>, inclusive: set<string>, comments: bool)
    requires AllCanonical(declared, ns, inclusive, comments)
    ensures forall c :: c in ns ==> AllInTextOrder(c)
    decreases ns, 0
  {
    hide Canonical, AllInTextOrder;
    if ns != [] {
      CanonicalInText(declared, ns[0], inclusive, comments);
      AllCanonicalInText(declared, ns[1..], inclusive, comments);
      assert forall c :: c in ns <==> c == ns[0] || c in ns[1..];
    }
  }

  /** So has every output. */
  lemma OutputInText(scope: Context, declared: Context, n: Node, inclusive: set<string>, comments: bool)
    requires GoodContext(scope) && GoodContext(declared)
    requires Exc(scope, declared, n, inclusive, comments).Ok?
    ensures AllInTextOrder(Exc(scope, declared, n, inclusive, comments).value)
  {
    hide Exc, Canonical, AllInTextOrder;
    OutputCanonical(scope, declared, n, inclusive, comments);
    CanonicalInText(declared, Exc(scope, declared, n, inclusive, comments).value, inclusive, comments);
  }

  lemma CanonicalKeepsAttrs(declared: Context, n: Node, inclusive: set<string>, comments: bool)
    requires n.Element? && Canonical(declared, n, inclusive, comments)
    ensures var ds := Decls(n.attrs);
            && Missing(declared, declared + ds, n, inclusive) == ds.Keys
            && Bindings(declared + ds, ds.Keys) == ds
            && Redeclare(n.attrs, ds) == n.attrs
  {
    hide AttrLess, Sorted, Arrange, AllCanonical, Decls, DeclsError, OwnPrefixes;
    var ds := Decls(n.attrs);
    forall p | p in ds ensures p in Missing(declared, declared + ds, n, inclusive) && DeclAttr(p, ds[p]) in n.attrs {
      var a := DeclsFrom(n.attrs, p);
    }
    forall a | a in n.attrs && IsDecl(a) ensures a in DeclAttrs(ds) {
      assert a == DeclAttr(DeclPrefix(a), ds[DeclPrefix(a)]);
    }
    assert forall a :: a in n.attrs <==> a in Plain(n.attrs) + DeclAttrs(ds);
    ArrangeSorted(n.attrs, Plain(n.attrs) + DeclAttrs(ds));
  }

  lemma {:induction false} CanonicalUnchanged(
      declared: Context, n: Node, inclusive: set<string>, comments: bool)
    requires Canonical(declared, n, inclusive, comments)
    ensures Exc(declared, declared, n, inclusive, comments) == Ok(n)
    decreases n, 1
  {
    if n.Element? {
      hide Redeclare, Sorted, Missing, Bindings, Utilized, OwnPrefixes, Plain;
      CanonicalKeepsAttrs(declared, n, inclusive, comments);
      var inner := declared + Decls(n.attrs);
      AllCanonicalUnchanged(inner, n.child, inclusive, comments);
    }
  }

  lemma {:induction false} AllCanonicalUnchanged(
      declared: Context, ns: seq<Node>, inclusive: set<string>, comments: bool)
    requires AllCanonical(declared, ns, inclusive, comments)
    ensures ExcAll(declared, declared, ns, inclusive, comments) == Ok(ns)
    decreases ns, 0
  {
    if ns != [] {
      CanonicalUnchanged(declared, ns[0], inclusive, comments);
      AllCanonicalUnchanged(declared, ns[1..], inclusive, comments);
      assert [ns[0]] + ns[1..] == ns;
    }
  }

  /** The trees which canonicalization leaves alone are the canonical ones, and every output is one,
      so a second run changes nothing. */
  lemma FixedPoints(declared: Context, n: Node, inclusive: set<string>, comments: bool)
    requires GoodContext(declared)
    ensures Exc(declared, declared, n, inclusive, comments) == Ok(n)
       <==> Canonical(declared, n, inclusive, comments)
  {
    if Exc(declared, declared, n, inclusive, comments) == Ok(n) {
      OutputCanonical(declared, declared, n, inclusive, comments);
    } else if Canonical(declared, n, inclusive, comments) {
      CanonicalUnchanged(declared, n, inclusive, comments);
    }
  }

  lemma Idempotent(scope: Context, declared: Context, n: Node, inclusive: set<string>, comments: bool)
    requires GoodContext(scope) && GoodContext(declared)
    requires Exc(scope, declared, n, inclusive, comments).Ok?
    ensures var out := Exc(scope, declared, n, inclusive, comments).value;
            Exc(declared, declared, out, inclusive, comments) == Ok(out)
  {
    OutputCanonical(scope, declared, n, inclusive, comments);
    CanonicalUnchanged(declared, Exc(scope, declared, n, inclusive, comments).value, inclusive, comments);
  }

  // ---------------------------------------------------------------- empty default namespaces

  const EMPTY_DEFAULT: Attr := Attr(DEFAULT_PREFIX, XMLNS_PREFIX, "")

  /** Where the code writes `xmlns=""`: `inner` is what the input has in scope inside the element, and `declared`
      what the output has around it. */
  ghost predicate Undeclares(inner: Context, declared: Context, e: Node, inclusive: set<string>)
    requires e.Element?
  {
    && DEFAULT_PREFIX in Utilized(e, inclusive)
    && Lookup(inner, DEFAULT_PREFIX) == Some("") && Lookup(declared, DEFAULT_PREFIX) != Some("")
  }

  /** No default namespace: none is bound, the empty one is, or the one that stands for none in the code. */
  predicate NoDefault(ctx: Context) {
    Lookup(ctx, DEFAULT_PREFIX) in [None, Some(""), Some(XML_NAMESPACE)]
  }

  /** Where section 3 of Exclusive XML Canonicalization 1.0 wants it: the element utilizes the default
      namespace, has none, and the output around it has one. */
  ghost predicate StandardUndeclares(inner: Context, declared: Context, e: Node, inclusive: set<string>)
    requires e.Element?
  {
    DEFAULT_PREFIX in Utilized(e, inclusive) && NoDefault(inner) && !NoDefault(declared)
  }

  /** The code writes one that the standard leaves out exactly where the output has no default namespace to
      undeclare. */
  lemma Superfluous(inner: Context, declared: Context, e: Node, inclusive: set<string>)
    requires e.Element? && DEFAULT_PREFIX in declared
    ensures Undeclares(inner, declared, e, inclusive) && !StandardUndeclares(inner, declared, e, inclusive)
       <==> Undeclares(inner, declared, e, inclusive) && declared[DEFAULT_PREFIX] == XML_NAMESPACE
  {
  }

  /** Every element of `out` has `xmlns=""` if and only if Undeclares says so of the element of `n` that it comes
      from. */
  ghost predicate EmptyDefaults(
      scope: Context, declared: Context, n: Node, inclusive: set<string>, comments: bool, out: Node)
    decreases n, 1
  {
    n.Element? ==>
      var inner := scope + Decls(n.attrs);
      && out.Element? && (EMPTY_DEFAULT in out.attrs <==> Undeclares(inner, declared, n, inclusive))
      && AllEmptyDefaults(inner, declared + Decls(out.attrs), n.child, inclusive, comments, out.child)
  }

  ghost predicate AllEmptyDefaults(
      scope: Context, declared: Context, ns: seq<Node>, inclusive: set<string>, comments: bool, outs: seq<Node>)
    decreases ns, 0
  {
    if ns == [] then outs == []
    else if ns[0].Comment? && !comments then AllEmptyDefaults(scope, declared, ns[1..], inclusive, comments, outs)
    else
      && outs != [] && EmptyDefaults(scope, declared, ns[0], inclusive, comments, outs[0])
      && AllEmptyDefaults(scope, declared, ns[1..], inclusive, comments, outs[1..])
  }

  lemma {:induction false} OutputEmptyDefaults(
      scope: Context, declared: Context, n: Node, inclusive: set<string>, comments: bool)
    requires GoodContext(scope) && GoodContext(declared)
    requires Exc(scope, declared, n, inclusive, comments).Ok?
    ensures EmptyDefaults(scope, declared, n, inclusive, comments, Exc(scope, declared, n, inclusive, comments).value)
    decreases n, 1
  {
    hide Redeclare, Missing, Bindings, Undeclares, Utilized, GoodContext, DeclsError, Decls;
    if n.Element? {
      SubContextGood(scope, n.attrs);
      var inner := scope + Decls(n.attrs);
      OutputScope(declared, inner, n, inclusive);
      var added := Bindings(inner, Missing(declared, inner, n, inclusive));
      EmptyDefaultAdded(inner, declared, n, inclusive);
      AllOutputEmptyDefaults(inner, declared + added, n.child, inclusive, comments);
    }
  }

  lemma EmptyDefaultAdded(inner: Context, declared: Context, e: Node, inclusive: set<string>)
    requires e.Element?
    ensures EMPTY_DEFAULT in Redeclare(e.attrs, Bindings(inner, Missing(declared, inner, e, inclusive)))
       <==> Undeclares(inner, declared, e, inclusive)
  {
    hide Redeclare, Utilized;
    var added := Bindings(inner, Missing(declared, inner, e, inclusive));
    RedeclareElements(e.attrs, added);
    assert EMPTY_DEFAULT !in Plain(e.attrs);
    if DEFAULT_PREFIX in added && added[DEFAULT_PREFIX] == "" {
      assert DeclAttr(DEFAULT_PREFIX, added[DEFAULT_PREFIX]) in DeclAttrs(added);
    }
  }

  lemma {:induction false} AllOutputEmptyDefaults(
      scope: Context, declared: Context, ns: seq<Node>, inclusive: set<string>, comments: bool)
    requires GoodContext(scope) && GoodContext(declared)
    requires ExcAll(scope, declared, ns, inclusive, comments).Ok?
    ensures AllEmptyDefaults(
              scope, declared, ns, inclusive, comments, ExcAll(scope, declared, ns, inclusive, comments).value)
    decreases ns, 0
  {
    hide Exc, EmptyDefaults, GoodContext;
    if ns != [] {
      AllOutputEmptyDefaults(scope, declared, ns[1..], inclusive, comments);
      if !(ns[0].Comment? && !comments) {
        OutputEmptyDefaults(scope, declared, ns[0], inclusive, comments);
      }
    }
  }

  /** No element declares the namespace that stands for none as its default one. */
  ghost predicate Ordinary(n: Node)
    decreases n, 1
  {
    n.Element? ==> DeclAttr(DEFAULT_PREFIX, XML_NAMESPACE) !in n.attrs && AllOrdinary(n.child)
  }

  ghost predicate AllOrdinary(ns: seq<Node>)
    decreases ns, 0
  {
    ns != [] ==> Ordinary(ns[0]) && AllOrdinary(ns[1..])
  }

  /** Where the input never had a default namespace, neither has the output. */
  predicate InStep(scope: Context, declared: Context) {
    Lookup(scope, DEFAULT_PREFIX) == Some(XML_NAMESPACE) ==> NoDefault(declared)
  }

  /** Every element of `out` has `xmlns=""` if and only if the standard wants it, or it is superfluous. */
  ghost predicate StandardDefaults(
      scope: Context, declared: Context, n: Node, inclusive: set<string>, comments: bool, out: Node)
    decreases n, 1
  {
    n.Element? ==>
      var inner := scope + Decls(n.attrs);
      && out.Element?
      && (EMPTY_DEFAULT in out.attrs <==>
            || StandardUndeclares(inner, declared, n, inclusive)
            || (Undeclares(inner, declared, n, inclusive) && Lookup(declared, DEFAULT_PREFIX) == Some(XML_NAMESPACE)))
      && AllStandardDefaults(inner, declared + Decls(out.attrs), n.child, inclusive, comments, out.child)
  }

  ghost predicate AllStandardDefaults(
      scope: Context, declared: Context, ns: seq<Node>, inclusive: set<string>, comments: bool, outs: seq<Node>)
    decreases ns, 0
  {
    if ns == [] then outs == []
    else if ns[0].Comment? && !comments then AllStandardDefaults(scope, declared, ns[1..], inclusive, comments, outs)
    else
      && outs != [] && StandardDefaults(scope, declared, ns[0], inclusive, comments, outs[0])
      && AllStandardDefaults(scope, declared, ns[1..], inclusive, comments, outs[1..])
  }

  lemma {:induction false} OutputStandardDefaults(
      scope: Context, declared: Context, n: Node, inclusive: set<string>, comments: bool)
    requires GoodContext(scope) && GoodContext(declared) && InStep(scope, declared) && Ordinary(n)
    requires Exc(scope, declared, n, inclusive, comments).Ok?
    ensures StandardDefaults(scope, declared, n, inclusive, comments, Exc(scope, declared, n, inclusive, comments).value)
    decreases n, 1
  {
    hide Redeclare, Missing, Bindings, Undeclares, StandardUndeclares, Utilized, InStep, DeclsError, Decls;
    if n.Element? {
      SubContextGood(scope, n.attrs);
      var inner := scope + Decls(n.attrs);
      OutputScope(declared, inner, n, inclusive);
      var added := Bindings(inner, Missing(declared, inner, n, inclusive));
      EmptyDefaultAdded(inner, declared, n, inclusive);
      StaysInStep(scope, declared, n, inclusive);
      Wanted(inner, declared, n, inclusive);
      AllOutputStandardDefaults(inner, declared + added, n.child, inclusive, comments);
    }
  }

  lemma StaysInStep(scope: Context, declared: Context, e: Node, inclusive: set<string>)
    requires e.Element? && DeclAttr(DEFAULT_PREFIX, XML_NAMESPACE) !in e.attrs && InStep(scope, declared)
    ensures var inner := scope + Decls(e.attrs);
            && InStep(inner, declared)
            && InStep(inner, declared + Bindings(inner, Missing(declared, inner, e, inclusive)))
  {
    hide Utilized;
    if DEFAULT_PREFIX in Decls(e.attrs) {
      var a := DeclsFrom(e.attrs, DEFAULT_PREFIX);
      assert a == DeclAttr(DEFAULT_PREFIX, a.value);
    }
  }

  lemma Wanted(inner: Context, declared: Context, e: Node, inclusive: set<string>)
    requires e.Element? && InStep(inner, declared) && DEFAULT_PREFIX in inner && DEFAULT_PREFIX in declared
    ensures Undeclares(inner, declared, e, inclusive) <==>
              || StandardUndeclares(inner, declared, e, inclusive)
              || (Undeclares(inner, declared, e, inclusive) && Lookup(declared, DEFAULT_PREFIX) == Some(XML_NAMESPACE))
  {
  }

  lemma {:induction false} AllOutputStandardDefaults(
      scope: Context, declared: Context, ns: seq<Node>, inclusive: set<string>, comments: bool)
    requires GoodContext(scope) && GoodContext(declared) && InStep(scope, declared) && AllOrdinary(ns)
    requires ExcAll(scope, declared, ns, inclusive, comments).Ok?
    ensures AllStandardDefaults(
              scope, declared, ns, inclusive, comments, ExcAll(scope, declared, ns, inclusive, comments).value)
    decreases ns, 0
  {
    hide Exc, StandardDefaults, GoodContext, InStep;
    if ns != [] {
      AllOutputStandardDefaults(scope, declared, ns[1..], inclusive, comments);
      if !(ns[0].Comment? && !comments) {
        OutputStandardDefaults(scope, declared, ns[0], inclusive, comments);
      }
    }
  }

  const UNPREFIXED: Node := Element("", "a", [EMPTY_DEFAULT], [])

  /** Three inputs. An unprefixed root with `xmlns=""` keeps it, which the standard would not. */
  lemma UnprefixedRoot()
    ensures var out := C14n(UNPREFIXED, {}, false);
            && out.Ok? && out.value.Element? && EMPTY_DEFAULT in out.value.attrs
            && !StandardUndeclares(DEFAULT_CONTEXT + Decls(UNPREFIXED.attrs), DEFAULT_CONTEXT, UNPREFIXED, {})
  {
    hide Exc, Redeclare, WellScoped, OwnPrefixes, Decls, DeclsError, AllEmptyDefaults;
    UnprefixedScope();
    SucceedsWhenWellScoped(DEFAULT_CONTEXT, DEFAULT_CONTEXT, UNPREFIXED, {}, false);
    OutputEmptyDefaults(DEFAULT_CONTEXT, DEFAULT_CONTEXT, UNPREFIXED, {}, false);
  }

  lemma UnprefixedScope()
    ensures Decls(UNPREFIXED.attrs) == map[DEFAULT_PREFIX := ""] && OwnPrefixes(UNPREFIXED) == {""}
    ensures WellScoped(DEFAULT_CONTEXT, UNPREFIXED)
  {
    OneEmptyDefault();
  }

  const BARE: Node := Element("", "b", [], [])
  const PREFIXED: Node := Element("p", "a", [DeclAttr("p", "u"), EMPTY_DEFAULT], [BARE])

  /** A prefixed root loses it, as the standard has it, and an unprefixed child of that root has it in its place,
      which the standard would not. */
  lemma PrefixedRoot()
    ensures var out := C14n(PREFIXED, {}, false);
            && out.Ok? && out.value.Element? && EMPTY_DEFAULT !in out.value.attrs
            && |out.value.child| == 1 && out.value.child[0].Element? && EMPTY_DEFAULT in out.value.child[0].attrs
            && var inner, around := DEFAULT_CONTEXT + Decls(PREFIXED.attrs), DEFAULT_CONTEXT + Decls(out.value.attrs);
            && !StandardUndeclares(inner, DEFAULT_CONTEXT, PREFIXED, {})
            && !StandardUndeclares(inner + Decls(BARE.attrs), around, BARE, {})
  {
    hide Redeclare, Exc, WellScoped, OwnPrefixes, Decls, DeclsError, EmptyDefaults, AllEmptyDefaults;
    var inner := DEFAULT_CONTEXT + Decls(PREFIXED.attrs);
    PrefixedScope();
    SucceedsWhenWellScoped(DEFAULT_CONTEXT, DEFAULT_CONTEXT, PREFIXED, {}, false);
    PrefixedAttrs();
    OutputEmptyDefaults(DEFAULT_CONTEXT, DEFAULT_CONTEXT, PREFIXED, {}, false);
    var out := C14n(PREFIXED, {}, false).value;
    EmptyDefaultsOfOne(DEFAULT_CONTEXT, DEFAULT_CONTEXT, PREFIXED, BARE, out);
    NotDeclared(PREFIXED, inner, out.attrs);
  }

  /** A root that does not utilize the default namespace declares none. */
  lemma NotDeclared(e: Node, inner: Context, attrs: seq<Attr>)
    requires e.Element? && OwnPrefixes(e) == {"p"} && GoodContext(inner)
    requires attrs == Redeclare(e.attrs, Bindings(inner, Missing(DEFAULT_CONTEXT, inner, e, {})))
    ensures DEFAULT_PREFIX !in Decls(attrs)
  {
    hide Redeclare;
    RedeclareDecls(e.attrs, Bindings(inner, Missing(DEFAULT_CONTEXT, inner, e, {})));
  }

  lemma PrefixedAttrs()
    requires Exc(DEFAULT_CONTEXT, DEFAULT_CONTEXT, PREFIXED, {}, false).Ok?
    ensures var inner := DEFAULT_CONTEXT + Decls(PREFIXED.attrs);
            && GoodContext(inner)
            && Exc(DEFAULT_CONTEXT, DEFAULT_CONTEXT, PREFIXED, {}, false).value.attrs
               == Redeclare(PREFIXED.attrs, Bindings(inner, Missing(DEFAULT_CONTEXT, inner, PREFIXED, {})))
  {
    hide Redeclare, ExcAll, Missing;
    SubContextGood(DEFAULT_CONTEXT, PREFIXED.attrs);
  }

  lemma PrefixedScope()
    ensures Decls(PREFIXED.attrs) == map["p" := "u", DEFAULT_PREFIX := ""] && Decls(BARE.attrs) == map[]
    ensures OwnPrefixes(PREFIXED) == {"p"} && OwnPrefixes(BARE) == {""}
    ensures WellScoped(DEFAULT_CONTEXT, PREFIXED)
  {
    OneEmptyDefault();
    assert PREFIXED.attrs[1..] == [EMPTY_DEFAULT] && PREFIXED.child[1..] == [];
    var inner := DEFAULT_CONTEXT + Decls(PREFIXED.attrs);
    assert WellScoped(inner, BARE);
  }

  /** An element with one child that has none. */
  lemma EmptyDefaultsOfOne(scope: Context, declared: Context, n: Node, b: Node, out: Node)
    requires n.Element? && n.child == [b] && b.Element? && b.child == []
    requires EmptyDefaults(scope, declared, n, {}, false, out)
    ensures var inner := scope + Decls(n.attrs);
            && out.Element? && (EMPTY_DEFAULT in out.attrs <==> Undeclares(inner, declared, n, {}))
            && |out.child| == 1 && out.child[0].Element?
            && (EMPTY_DEFAULT in out.child[0].attrs
                <==> Undeclares(inner + Decls(b.attrs), declared + Decls(out.attrs), b, {}))
  {
    hide Undeclares, Decls;
    OnlyEmptyDefaults(scope + Decls(n.attrs), declared + Decls(out.attrs), b, out.child);
  }

  lemma OnlyEmptyDefaults(scope: Context, declared: Context, b: Node, outs: seq<Node>)
    requires b.Element? && AllEmptyDefaults(scope, declared, [b], {}, false, outs)
    ensures |outs| == 1 && EmptyDefaults(scope, declared, b, {}, false, outs[0])
  {
    hide EmptyDefaults;
    assert [b][1..] == [];
    assert AllEmptyDefaults(scope, declared, [], {}, false, outs[1..]);
  }

  lemma OneEmptyDefault()
    ensures Decls([EMPTY_DEFAULT]) == map[DEFAULT_PREFIX := ""] && DeclsError([EMPTY_DEFAULT]).None?
  {
    assert [EMPTY_DEFAULT][1..] == [];
  }

  // ---------------------------------------------------------------- which declarations there are

  ghost predicate DeclaresPrefix(e: Node, p: string)
    requires e.Element?
  {
    exists a :: a in e.attrs && ((a.space == "xmlns" && a.key == p) || (p == "" && a.space == "" && a.key == "xmlns"))
  }

  /** The prefix is that of the element or of an attribute, or it is on the list and declared on the element. */
  ghost predicate WantsPrefix(e: Node, inclusive: set<string>, p: string)
    requires e.Element?
  {
    || p == e.space
    || (p != "" && p != "xmlns" && exists a :: a in e.attrs && a.space == p)
    || (p in inclusive && DeclaresPrefix(e, p))
  }

  /** Every element of the output declares exactly the prefixes that it wants and that the output around it does not bind
      as the input does, with the binding of the input. */
  ghost predicate DeclaresWanted(scope: Context, declared: Context, n: Node, inclusive: set<string>, comments: bool, out: Node)
    decreases n, 1
  {
    if !n.Element? then out == n
    else
      && out.Element?
      && var inner := scope + Decls(n.attrs);
      && (forall p :: Lookup(Decls(out.attrs), p) == if WantsPrefix(n, inclusive, p) && Lookup(declared, p) != Lookup(inner, p)
                                                     then Lookup(inner, p) else None)
      && AllDeclareWanted(inner, declared + Decls(out.attrs), n.child, inclusive, comments, out.child)
  }

  ghost predicate AllDeclareWanted(
      scope: Context, declared: Context, ns: seq<Node>, inclusive: set<string>, comments: bool, outs: seq<Node>)
    decreases ns, 0
  {
    if ns == [] then outs == []
    else if ns[0].Comment? && !comments then AllDeclareWanted(scope, declared, ns[1..], inclusive, comments, outs)
    else
      && outs != [] && DeclaresWanted(scope, declared, ns[0], inclusive, comments, outs[0])
      && AllDeclareWanted(scope, declared, ns[1..], inclusive, comments, outs[1..])
  }

  lemma WantedIsUtilized(e: Node, inclusive: set<string>, p: string)
    requires e.Element?
    ensures WantsPrefix(e, inclusive, p) <==> p in Utilized(e, inclusive)
  {
    if p in Decls(e.attrs) {
      var a := DeclsFrom(e.attrs, p);
      assert a in e.attrs;
    }
    if DeclaresPrefix(e, p) {
      var a :| a in e.attrs && ((a.space == "xmlns" && a.key == p) || (p == "" && a.space == "" && a.key == "xmlns"));
      DeclsHas(e.attrs, a);
    }
    if p != "" && p != "xmlns" {
      forall a | a in e.attrs && a.space == p ensures a in Plain(e.attrs) {}
    }
  }

  lemma AddedExactly(inner: Context, declared: Context, e: Node, inclusive: set<string>, p: string)
    requires e.Element?
    ensures Lookup(Bindings(inner, Missing(declared, inner, e, inclusive)), p)
         == if WantsPrefix(e, inclusive, p) && Lookup(declared, p) != Lookup(inner, p) then Lookup(inner, p) else None
  {
    hide WantsPrefix, Utilized;
    WantedIsUtilized(e, inclusive, p);
  }

  lemma {:induction false} OutputDeclaresWanted(
      scope: Context, declared: Context, n: Node, inclusive: set<string>, comments: bool)
    requires GoodContext(scope) && GoodContext(declared) && Exc(scope, declared, n, inclusive, comments).Ok?
    ensures DeclaresWanted(scope, declared, n, inclusive, comments, Exc(scope, declared, n, inclusive, comments).value)
    decreases n, 1
  {
    hide Redeclare, Missing, Bindings, WantsPrefix, Decls, DeclsError;
    if n.Element? {
      SubContextGood(scope, n.attrs);
      var inner := scope + Decls(n.attrs);
      OutputScope(declared, inner, n, inclusive);
      var added := Bindings(inner, Missing(declared, inner, n, inclusive));
      forall p
        ensures Lookup(added, p)
             == if WantsPrefix(n, inclusive, p) && Lookup(declared, p) != Lookup(inner, p) then Lookup(inner, p) else None
      {
        AddedExactly(inner, declared, n, inclusive, p);
      }
      AllOutputDeclareWanted(inner, declared + added, n.child, inclusive, comments);
    }
  }

  lemma {:induction false} AllOutputDeclareWanted(
      scope: Context, declared: Context, ns: seq<Node>, inclusive: set<string>, comments: bool)
    requires GoodContext(scope) && GoodContext(declared) && ExcAll(scope, declared, ns, inclusive, comments).Ok?
    ensures AllDeclareWanted(scope, declared, ns, inclusive, comments, ExcAll(scope, declared, ns, inclusive, comments).value)
    decreases ns, 0
  {
    hide Exc, DeclaresWanted, GoodContext;
    if ns != [] {
      AllOutputDeclareWanted(scope, declared, ns[1..], inclusive, comments);
      if !(ns[0].Comment? && !comments) {
        OutputDeclaresWanted(scope, declared, ns[0], inclusive, comments);
      }
    }
  }

  // ---------------------------------------------------------------- the order of the standard

  const DECLARES_A := Attr(XMLNS_PREFIX, "a", "1")
  const DECLARES_B := Attr(XMLNS_PREFIX, "b", "2")

  function OneTwo(prefix: string): string {
    if prefix == "a" then "1" else "2"
  }

  /** An element that declares the prefixes `a` and `b` and has the attributes `x` and `y`. */
  function WithBoth(x: Attr, y: Attr, child: seq<Node>): Node {
    Element("", "e", [DECLARES_A, DECLARES_B, x, y], child)
  }

  predicate UsesBoth(x: Attr, y: Attr) {
    (x.space == "a" && y.space == "b") || (x.space == "b" && y.space == "a")
  }

  lemma BothScope(x: Attr, y: Attr, child: seq<Node>)
    requires UsesBoth(x, y)
    ensures var n := WithBoth(x, y, child);
            && Decls(n.attrs) == map["a" := OneTwo("a"), "b" := OneTwo("b")] && DeclsError(n.attrs).None?
            && Plain(n.attrs) == {x, y} && OwnPrefixes(n) == {"", "a", "b"}
  {
    var n := WithBoth(x, y, child);
    var attrs := n.attrs;
    forall z ensures z in attrs <==> z == DECLARES_A || z == DECLARES_B || z == x || z == y {
      assert attrs[0] == DECLARES_A && attrs[1] == DECLARES_B && attrs[2] == x && attrs[3] == y;
    }
    BothDecls(x, y);
    DeclsErrorNone(attrs);
    assert Plain(attrs) == {x, y};
  }

  lemma BothDecls(x: Attr, y: Attr)
    requires UsesBoth(x, y)
    ensures Decls([DECLARES_A, DECLARES_B, x, y]) == map["a" := OneTwo("a"), "b" := OneTwo("b")]
  {
    var attrs := [DECLARES_A, DECLARES_B, x, y];
    assert attrs[0] == DECLARES_A && attrs[1] == DECLARES_B && attrs[2] == x && attrs[3] == y;
    DeclsAre(attrs, map["a" := OneTwo("a"), "b" := OneTwo("b")]);
  }

  /** In the order of the code it is canonical. */
  lemma BothCanonical(x: Attr, y: Attr, child: seq<Node>)
    requires UsesBoth(x, y) && AttrLess(x, y)
    requires AllCanonical(DEFAULT_CONTEXT + map["a" := OneTwo("a"), "b" := OneTwo("b")], child, {}, false)
    ensures Canonical(DEFAULT_CONTEXT, WithBoth(x, y, child), {}, false)
  {
    hide AllCanonical, Plain, Decls, DeclsError, OwnPrefixes, AttrLess;
    BothScope(x, y, child);
    BothSorted(x, y);
    var n := WithBoth(x, y, child);
    assert Utilized(n, {}) == {"", "a", "b"};
    forall z | z in n.attrs && IsDecl(z) ensures z == DECLARES_A || z == DECLARES_B {}
  }

  lemma BothSorted(x: Attr, y: Attr)
    requires UsesBoth(x, y) && AttrLess(x, y)
    ensures Sorted([DECLARES_A, DECLARES_B, x, y])
  {
    assert Rank(DECLARES_A) == Rank(DECLARES_B) == 1 && Rank(x) == Rank(y) == 3;
    assert AttrLess(DECLARES_A, DECLARES_B);
  }

  lemma BothSwapped(x: Attr, y: Attr)
    requires UsesBoth(x, y) && AttrLess(x, y)
    ensures C14n(WithBoth(y, x, []), {}, false) == C14n(WithBoth(x, y, []), {}, false) == Ok(WithBoth(x, y, []))
  {
    hide Exc, Canonical, AttrLess, Decls, DeclsError, Plain, OwnPrefixes, ViewAttrs;
    var m, n := WithBoth(y, x, []), WithBoth(x, y, []);
    BothCanonical(x, y, []);
    FixedPoints(DEFAULT_CONTEXT, n, {}, false);
    BothScope(x, y, []);
    BothScope(y, x, []);
    SamePlainSameViews(DEFAULT_CONTEXT + Decls(n.attrs), m.attrs, n.attrs);
    SucceedsWhenWellScoped(DEFAULT_CONTEXT, DEFAULT_CONTEXT, n, {}, false);
    SameViewSameForm(DEFAULT_CONTEXT, DEFAULT_CONTEXT, DEFAULT_CONTEXT, m, n, false);
  }

  /** An input that is not put in the order of the standard, although it was in that order: `b:y` goes before
      `a:z`, and the namespace of `a` goes before that of `b`. */
  lemma LocalNameFirst()
    ensures var x, y := Attr("a", "z", "3"), Attr("b", "y", "4");
            && Decls(WithBoth(x, y, []).attrs) == map["a" := OneTwo("a"), "b" := OneTwo("b")]
            && C14n(WithBoth(x, y, []), {}, false) == Ok(WithBoth(y, x, []))
            && StandardSorted(OneTwo, WithBoth(x, y, []).attrs) && !StandardSorted(OneTwo, WithBoth(y, x, []).attrs)
  {
    hide Exc, Decls;
    var x, y := Attr("a", "z", "3"), Attr("b", "y", "4");
    BothSwapped(y, x);
    BothScope(x, y, []);
    assert StandardBefore(OneTwo, WithBoth(y, x, []).attrs[3], WithBoth(y, x, []).attrs[2]);
  }

  /** An input whose order is left as it was, whatever it was: the prefixes are declared further up in the canonical
      form, so that neither of the child's attributes goes before the other. The standard decides. */
  lemma Undecided()
    ensures var x, y := Attr("a", "k", "5"), Attr("b", "k", "6");
            var above := WithBoth(Attr("b", "y", "4"), Attr("a", "z", "3"), [Element("", "c", [x, y], [])]);
            && Decls(above.attrs) == map["a" := OneTwo("a"), "b" := OneTwo("b")]
            && C14n(above, {}, false) == Ok(above)
            && InOrder([x, y]) && InOrder([y, x]) && StandardLess(OneTwo, x, y)
  {
    hide Exc, Decls, Canonical;
    var x, y, v, w := Attr("a", "k", "5"), Attr("b", "k", "6"), Attr("b", "y", "4"), Attr("a", "z", "3");
    var inner := Element("", "c", [x, y], []);
    BothScope(v, w, [inner]);
    OnlyPlainCanonical(DEFAULT_CONTEXT + map["a" := OneTwo("a"), "b" := OneTwo("b")], x, y);
    assert [inner][1..] == [];
    BothCanonical(v, w, [inner]);
    FixedPoints(DEFAULT_CONTEXT, WithBoth(v, w, [inner]), {}, false);
    NoLast(x, y);
    NoLast(y, x);
  }

  lemma NoLast(x: Attr, y: Attr)
    requires x.key == y.key == "k"
    ensures LastValue([x, y], "a") == LastValue([x, y], "b") == ""
  {
    assert [x, y][..1] == [x] && [x][..0] == [];
    assert LastValue([x], "a") == LastValue([x], "b") == "";
  }

  lemma OnlyPlainCanonical(declared: Context, x: Attr, y: Attr)
    requires UsesBoth(x, y) && AttrLess(x, y) && {"", "a", "b"} <= declared.Keys
    ensures Canonical(declared, Element("", "c", [x, y], []), {}, false)
  {
    hide AttrLess;
    var attrs := [x, y];
    assert forall z :: z in attrs <==> z == x || z == y;
    DeclsAre(attrs, map[]);
    DeclsErrorNone(attrs);
    assert Plain(attrs) == {x, y};
    assert OwnPrefixes(Element("", "c", attrs, [])) == {"", "a", "b"};
  }
}
