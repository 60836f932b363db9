/** Taking an element out of its document: `NSDetatch` in internal/dsig/etreeutils/namespace.go and
    `elementToBytes` in service_provider.go. */
module Relocate {
  import opened Wrappers
  import opened Xml
  import opened Views
  import opened ExcC14n

  // ---------------------------------------------------------------- ancestors

  /** `NSBuildParentContext`: the context around an element whose ancestors, outermost first, carry
      the attribute lists `ancestors`. */
  function ParentContext(ancestors: seq<seq<Attr>>): Result<Context, NsError> {
    if ancestors == [] then Ok(DEFAULT_CONTEXT)
    else
      var outer :- ParentContext(ancestors[..|ancestors| - 1]);
      SubContext(outer, ancestors[|ancestors| - 1])
  }

  lemma {:induction false} ParentContextGood(ancestors: seq<seq<Attr>>)
    requires ParentContext(ancestors).Ok?
    ensures GoodContext(ParentContext(ancestors).value)
  {
    if ancestors != [] {
      var outer := ancestors[..|ancestors| - 1];
      ParentContextGood(outer);
      SubContextGood(ParentContext(outer).value, ancestors[|ancestors| - 1]);
    }
  }

  // ---------------------------------------------------------------- NSDetatch

  /** The bindings that are declared on a detached element: all but the implicit ones. */
  ghost function Carried(inner: Context): Context {
    map p | p in inner && p != XMLNS_PREFIX && p != XML_PREFIX && !(p == DEFAULT_PREFIX && inner[p] == XML_NAMESPACE)
      :: inner[p]
  }

  ghost function Detach(ctx: Context, e: Node): Result<Node, NsError>
    requires e.Element?
  {
    var inner :- SubContext(ctx, e.attrs);
    Ok(e.(attrs := Redeclare(e.attrs, Carried(inner))))
  }

  /** On its own, the detached copy has in scope exactly what the element had in its document. */
  lemma DetachScope(ctx: Context, e: Node)
    requires e.Element? && GoodContext(ctx) && Detach(ctx, e).Ok?
    ensures SubContext(DEFAULT_CONTEXT, Detach(ctx, e).value.attrs) == SubContext(ctx, e.attrs)
    ensures Plain(Detach(ctx, e).value.attrs) == Plain(e.attrs)
  {
    hide Redeclare, Decls, DeclsError;
    SubContextGood(ctx, e.attrs);
    var inner := SubContext(ctx, e.attrs).value;
    RedeclareDecls(e.attrs, Carried(inner));
    RedeclareScope(DEFAULT_CONTEXT, e.attrs, Carried(inner));
    assert DEFAULT_CONTEXT + Carried(inner) == inner;
  }

  /** What is declared on the copy: all that is in scope, but for `xml`, `xmlns` and a default namespace that is none. */
  lemma DetachDeclares(ctx: Context, e: Node, p: string)
    requires e.Element? && Detach(ctx, e).Ok?
    ensures Lookup(Decls(Detach(ctx, e).value.attrs), p)
         == if p == "xml" || p == "xmlns" || (p == "" && Lookup(ctx + Decls(e.attrs), p) == Some("http://www.w3.org/XML/1998/namespace"))
            then None else Lookup(ctx + Decls(e.attrs), p)
  {
    hide Redeclare, DeclsError;
    RedeclareDecls(e.attrs, Carried(ctx + Decls(e.attrs)));
    hide Decls;
  }

  /** Every name in the detached copy means what it did in the document, and nothing is lost. */
  lemma DetachKeepsView(ctx: Context, e: Node, with: bool)
    requires e.Element? && GoodContext(ctx) && Detach(ctx, e).Ok?
    ensures var d := Detach(ctx, e).value;
            && ViewOf(DEFAULT_CONTEXT, d, with) == ViewOf(ctx, e, with)
            && (WellScoped(DEFAULT_CONTEXT, d) <==> WellScoped(ctx, e))
  {
    DetachScope(ctx, e);
    hide Redeclare, Carried, Decls, DeclsError, Plain, ViewAttrs;
    var d := Detach(ctx, e).value;
    SamePlainSameViews(ctx + Decls(e.attrs), d.attrs, e.attrs);
    assert OwnPrefixes(d) == OwnPrefixes(e);
    assert DEFAULT_CONTEXT + Decls(d.attrs) == ctx + Decls(e.attrs);
  }

  /** `signatureValidationContext` passes a context which already has the element's own declarations. */
  lemma DetachInside(ctx: Context, e: Node)
    requires e.Element? && SubContext(ctx, e.attrs).Ok?
    ensures Detach(SubContext(ctx, e.attrs).value, e) == Detach(ctx, e)
  {
    assert ctx + Decls(e.attrs) + Decls(e.attrs) == ctx + Decls(e.attrs);
  }

  /** Detaching first makes no difference to the canonical form. */
  lemma DetachKeepsForm(ctx: Context, e: Node, comments: bool)
    requires e.Element? && GoodContext(ctx) && WellScoped(ctx, e)
    ensures Detach(ctx, e).Ok?
    ensures C14n(Detach(ctx, e).value, {}, comments) == Exc(ctx, DEFAULT_CONTEXT, e, {}, comments)
  {
    DetachKeepsView(ctx, e, comments);
    SameViewSameForm(DEFAULT_CONTEXT, ctx, DEFAULT_CONTEXT, Detach(ctx, e).value, e, comments);
  }

  // ---------------------------------------------------------------- element names

  /** The name of every element of a tree, resolved. */
  datatype Names = Names(space: string, namespace: Option<string>, tag: Name, child: seq<Names>) | Unnamed

  ghost function NamesOf(ctx: Context, n: Node): Names
    decreases n, 1
  {
    if !n.Element? then Unnamed
    else
      var scope := ctx + Decls(n.attrs);
      Names(n.space, Lookup(scope, n.space), n.tag, NamesAmong(scope, n.child))
  }

  ghost function NamesAmong(scope: Context, ns: seq<Node>): seq<Names>
    decreases ns, 0
  {
    if ns == [] then [] else [NamesOf(scope, ns[0])] + NamesAmong(scope, ns[1..])
  }

  /** The prefixes of element names that `n` does not itself bind. */
  ghost function FreeNames(n: Node): set<string>
    decreases n, 1
  {
    if n.Element? then ({n.space} + FreeNamesAmong(n.child)) - Decls(n.attrs).Keys else {}
  }

  ghost function FreeNamesAmong(ns: seq<Node>): set<string>
    decreases ns, 0
  {
    if ns == [] then {} else FreeNames(ns[0]) + FreeNamesAmong(ns[1..])
  }

  /** Two contexts give a tree the same element names if and only if they agree on the prefixes free
      in those names. */
  lemma {:induction false} SameNames(c: Context, d: Context, n: Node)
    ensures NamesOf(c, n) == NamesOf(d, n) <==> Agree(c, d, FreeNames(n))
    decreases n, 1
  {
    if n.Element? {
      var ds := Decls(n.attrs);
      SameNamesAmong(c + ds, d + ds, n.child);
      forall p ensures p in ds ==> Lookup(c + ds, p) == Lookup(d + ds, p)
               ensures p !in ds ==> Lookup(c + ds, p) == Lookup(c, p) && Lookup(d + ds, p) == Lookup(d, p) {}
      assert NamesOf(c, n) == NamesOf(d, n) <==> Agree(c + ds, d + ds, {n.space} + FreeNamesAmong(n.child)) by {
        assert n.space in {n.space} + FreeNamesAmong(n.child);
      }
      assert forall p :: p in FreeNames(n) <==> p in {n.space} + FreeNamesAmong(n.child) && p !in ds;
    }
  }

  lemma {:induction false} SameNamesAmong(c: Context, d: Context, ns: seq<Node>)
    ensures NamesAmong(c, ns) == NamesAmong(d, ns) <==> Agree(c, d, FreeNamesAmong(ns))
    decreases ns, 0
  {
    if ns != [] {
      SameNames(c, d, ns[0]);
      SameNamesAmong(c, d, ns[1..]);
      var x, y := NamesAmong(c, ns), NamesAmong(d, ns);
      assert x[0] == NamesOf(c, ns[0]) && x[1..] == NamesAmong(c, ns[1..]);
      assert y[0] == NamesOf(d, ns[0]) && y[1..] == NamesAmong(d, ns[1..]);
    }
  }

  ghost function ElementPrefixes(n: Node): set<string>
    decreases n, 1
  {
    if n.Element? then {n.space} + ElementPrefixesAmong(n.child) else {}
  }

  ghost function ElementPrefixesAmong(ns: seq<Node>): set<string>
    decreases ns, 0
  {
    if ns == [] then {} else ElementPrefixes(ns[0]) + ElementPrefixesAmong(ns[1..])
  }

  lemma {:induction false} FreeNamesAreUsed(ns: seq<Node>)
    ensures FreeNamesAmong(ns) <= ElementPrefixesAmong(ns)
  {
    if ns != [] {
      if ns[0].Element? { FreeNamesAreUsed(ns[0].child); }
      FreeNamesAreUsed(ns[1..]);
    }
  }

  // ---------------------------------------------------------------- elementToBytes

  /** `SelectAttr(key) != nil`. The tree library ignores the prefix of an attribute when the key it is
      asked for has none. */
  predicate HasDeclaration(attrs: seq<Attr>, p: string) {
    exists a :: a in attrs && (if p == DEFAULT_PREFIX then a.key == XMLNS_PREFIX else a.space == XMLNS_PREFIX && a.key == p)
  }

  predicate Skipped(attrs: seq<Attr>, inner: Context, p: string) {
    || p == XML_PREFIX
    || p !in inner
    || (p == DEFAULT_PREFIX && inner[p] == XML_NAMESPACE)
    || HasDeclaration(attrs, p)
  }

  /** The attributes of the root after the loop of `elementToBytes`, for element prefixes met in the
      order of `prefixes`. */
  function AddDeclarations(attrs: seq<Attr>, inner: Context, prefixes: seq<string>): seq<Attr>
    decreases |prefixes|
  {
    if prefixes == [] then attrs
    else
      var p := prefixes[0];
      AddDeclarations(if Skipped(attrs, inner, p) then attrs else attrs + [DeclAttr(p, inner[p])], inner, prefixes[1..])
  }

  /** An attribute that `SelectAttr("xmlns")` takes for a declaration of the default namespace. */
  predicate Decoy(a: Attr) {
    a.key == XMLNS_PREFIX && a.space != DEFAULT_PREFIX
  }

  predicate HasDecoy(attrs: seq<Attr>) {
    exists a :: a in attrs && Decoy(a)
  }

  /** `p` is met before `q`. */
  predicate MetBefore(prefixes: seq<string>, p: string, q: string) {
    exists i :: 0 <= i < |prefixes| && prefixes[i] == p && q !in prefixes[..i]
  }

  /** The loop finds a decoy when it comes to the default namespace: one that was there, or the declaration of
      the reserved prefix that the loop itself has added. */
  predicate Blocked(attrs: seq<Attr>, prefixes: seq<string>) {
    HasDecoy(attrs) || MetBefore(prefixes, XMLNS_PREFIX, DEFAULT_PREFIX)
  }

  /** There is a default namespace around the element, and a decoy keeps it from being declared. */
  predicate DefaultNamespaceLost(ctx: Context, e: Node, prefixes: seq<string>)
    requires e.Element?
  {
    && Blocked(e.attrs, prefixes)
    && DEFAULT_PREFIX !in Decls(e.attrs)
    && DEFAULT_PREFIX in ctx && ctx[DEFAULT_PREFIX] != XML_NAMESPACE
  }

  /** Every declaration says what the context says. */
  predicate Faithful(attrs: seq<Attr>, inner: Context) {
    forall p :: p in Decls(attrs) ==> Lookup(inner, p) == Some(Decls(attrs)[p])
  }

  /** The loop adds declarations from the context, and drops nothing. */
  lemma {:induction false} AddsFaithfully(attrs: seq<Attr>, inner: Context, prefixes: seq<string>)
    requires Faithful(attrs, inner)
    ensures var out := AddDeclarations(attrs, inner, prefixes);
            && Faithful(out, inner) && Decls(attrs).Keys <= Decls(out).Keys
            && (forall a :: a in attrs ==> a in out)
    decreases |prefixes|
  {
    if prefixes != [] {
      var q := prefixes[0];
      if Skipped(attrs, inner, q) {
        AddsFaithfully(attrs, inner, prefixes[1..]);
      } else {
        DeclsAppend(attrs, DeclAttr(q, inner[q]));
        AddsFaithfully(attrs + [DeclAttr(q, inner[q])], inner, prefixes[1..]);
      }
    }
  }

  /** What the loop adds is a declaration of a prefix that it met, that is in scope and not declared on the element, and that
      is neither `xml` nor the default one for which there is no namespace. */
  lemma {:induction false} AddsOnlyNeeded(attrs: seq<Attr>, inner: Context, prefixes: seq<string>, a: Attr)
    requires a in AddDeclarations(attrs, inner, prefixes) && a !in attrs
    ensures IsDecl(a)
    ensures var p := DeclPrefix(a);
            && p in prefixes && p != "xml" && p !in Decls(attrs)
            && Lookup(inner, p) == Some(a.value)
            && !(p == "" && a.value == "http://www.w3.org/XML/1998/namespace")
    decreases |prefixes|
  {
    var q := prefixes[0];
    if Skipped(attrs, inner, q) {
      AddsOnlyNeeded(attrs, inner, prefixes[1..], a);
    } else {
      var d := DeclAttr(q, inner[q]);
      DeclaredHas(attrs, q);
      if a != d {
        DeclsAppend(attrs, d);
        AddsOnlyNeeded(attrs + [d], inner, prefixes[1..], a);
      }
    }
  }

  lemma DeclaredHas(attrs: seq<Attr>, p: string)
    ensures p in Decls(attrs) ==> HasDeclaration(attrs, p)
  {
    if p in Decls(attrs) {
      var b := DeclsFrom(attrs, p);
    }
  }

  lemma DecoyAppend(attrs: seq<Attr>, d: Attr)
    ensures HasDecoy(attrs + [d]) <==> HasDecoy(attrs) || Decoy(d)
  {
    if HasDecoy(attrs) {
      var a :| a in attrs && Decoy(a);
      assert a in attrs + [d];
    }
    assert d in attrs + [d];
    if HasDecoy(attrs + [d]) {
      var a :| a in attrs + [d] && Decoy(a);
      assert a in attrs || a == d;
    }
  }

  lemma MetBeforeTail(prefixes: seq<string>, p: string, q: string)
    requires prefixes != []
    ensures MetBefore(prefixes, p, q) <==> prefixes[0] == p || (prefixes[0] != q && MetBefore(prefixes[1..], p, q))
  {
    if MetBefore(prefixes, p, q) && prefixes[0] != p {
      var i :| 0 <= i < |prefixes| && prefixes[i] == p && q !in prefixes[..i];
      assert prefixes[0] in prefixes[..i];
      assert prefixes[..i][1..] == prefixes[1..][..i - 1];
      assert prefixes[1..][i - 1] == p && q !in prefixes[1..][..i - 1];
    }
    if prefixes[0] != q && MetBefore(prefixes[1..], p, q) {
      var i :| 0 <= i < |prefixes[1..]| && prefixes[1..][i] == p && q !in prefixes[1..][..i];
      assert prefixes[..i + 1] == [prefixes[0]] + prefixes[1..][..i];
      assert prefixes[i + 1] == p && q !in prefixes[..i + 1];
    }
    if prefixes[0] == p { assert q !in prefixes[..0]; }
  }

  /** One round of the loop, at a prefix other than the default one, leaves it blocked or free as it was. */
  lemma BlockedNext(attrs: seq<Attr>, inner: Context, prefixes: seq<string>)
    requires prefixes != [] && prefixes[0] != DEFAULT_PREFIX && XMLNS_PREFIX in inner
    ensures var q := prefixes[0];
            var next := if Skipped(attrs, inner, q) then attrs else attrs + [DeclAttr(q, inner[q])];
            Blocked(attrs, prefixes) <==> Blocked(next, prefixes[1..])
  {
    hide HasDecoy, MetBefore;
    var q := prefixes[0];
    MetBeforeTail(prefixes, XMLNS_PREFIX, DEFAULT_PREFIX);
    if !Skipped(attrs, inner, q) {
      DecoyAppend(attrs, DeclAttr(q, inner[q]));
    } else if q == XMLNS_PREFIX {
      ReservedIsDecoy(attrs);
    }
  }

  lemma ReservedIsDecoy(attrs: seq<Attr>)
    ensures HasDeclaration(attrs, XMLNS_PREFIX) ==> HasDecoy(attrs)
  {
    if HasDeclaration(attrs, XMLNS_PREFIX) {
      var a :| a in attrs && a.space == XMLNS_PREFIX && a.key == XMLNS_PREFIX;
      assert Decoy(a);
    }
  }

  /** Each prefix that the loop met is declared, skipped for good, or hidden by a decoy. */
  lemma {:induction false} AddsAll(attrs: seq<Attr>, inner: Context, prefixes: seq<string>, p: string)
    requires Faithful(attrs, inner) && XMLNS_PREFIX in inner && p in prefixes
    ensures || p in Decls(AddDeclarations(attrs, inner, prefixes))
            || p == XML_PREFIX || p !in inner
            || (p == DEFAULT_PREFIX && (inner[p] == XML_NAMESPACE || Blocked(attrs, prefixes)))
    decreases |prefixes|
  {
    hide Blocked;
    var q := prefixes[0];
    var next := if Skipped(attrs, inner, q) then attrs else attrs + [DeclAttr(q, inner[q])];
    if !Skipped(attrs, inner, q) {
      DeclsAppend(attrs, DeclAttr(q, inner[q]));
    }
    AddsFaithfully(next, inner, prefixes[1..]);
    if p == q {
      DeclaredOrDecoy(attrs, p);
      if HasDecoy(attrs) { DecoyBlocks(attrs, prefixes); }
    } else {
      AddsAll(next, inner, prefixes[1..], p);
      if q != DEFAULT_PREFIX {
        BlockedNext(attrs, inner, prefixes);
      }
    }
  }

  lemma DecoyBlocks(attrs: seq<Attr>, prefixes: seq<string>)
    ensures HasDecoy(attrs) ==> Blocked(attrs, prefixes)
  {
  }

  lemma DeclaredOrDecoy(attrs: seq<Attr>, p: string)
    ensures HasDeclaration(attrs, p) ==> p in Decls(attrs) || (p == DEFAULT_PREFIX && HasDecoy(attrs))
  {
    if HasDeclaration(attrs, p) {
      var a :| a in attrs && (if p == DEFAULT_PREFIX then a.key == XMLNS_PREFIX else a.space == XMLNS_PREFIX && a.key == p);
      if !(p == DEFAULT_PREFIX && Decoy(a)) {
        DeclsHas(attrs, a);
      }
    }
  }

  /** A default namespace that is blocked is never declared. */
  lemma {:induction false} BlockedStays(attrs: seq<Attr>, inner: Context, prefixes: seq<string>)
    requires XMLNS_PREFIX in inner && Blocked(attrs, prefixes) && DEFAULT_PREFIX !in Decls(attrs)
    ensures DEFAULT_PREFIX !in Decls(AddDeclarations(attrs, inner, prefixes))
    decreases |prefixes|
  {
    hide HasDecoy, MetBefore, Decls;
    if prefixes != [] {
      var q := prefixes[0];
      MetBeforeTail(prefixes, XMLNS_PREFIX, DEFAULT_PREFIX);
      if q == DEFAULT_PREFIX {
        DecoyDeclares(attrs);
        assert Skipped(attrs, inner, q);
        BlockedStays(attrs, inner, prefixes[1..]);
      } else {
        BlockedNext(attrs, inner, prefixes);
        if !Skipped(attrs, inner, q) {
          DeclsAppend(attrs, DeclAttr(q, inner[q]));
        }
        BlockedStays(if Skipped(attrs, inner, q) then attrs else attrs + [DeclAttr(q, inner[q])], inner, prefixes[1..]);
      }
    }
  }

  lemma DecoyDeclares(attrs: seq<Attr>)
    ensures HasDecoy(attrs) ==> HasDeclaration(attrs, DEFAULT_PREFIX)
  {
  }

  /** What `elementToBytes` serializes: a copy of `e` with the declarations that its element names
      need. The prefixes are met in some order. */
  function Standalone(ctx: Context, e: Node, prefixes: seq<string>): Result<Node, NsError>
    requires e.Element?
  {
    var inner :- SubContext(ctx, e.attrs);
    Ok(e.(attrs := AddDeclarations(e.attrs, inner, prefixes)))
  }

  /** The root of the standalone copy has in scope what the element had, for every prefix of an
      element name but a lost default one. */
  lemma StandaloneScope(ctx: Context, e: Node, prefixes: seq<string>, p: string)
    requires e.Element? && GoodContext(ctx) && Standalone(ctx, e, prefixes).Ok?
    requires p in prefixes
    ensures var scope := DEFAULT_CONTEXT + Decls(Standalone(ctx, e, prefixes).value.attrs);
            Lookup(scope, p) == Lookup(ctx + Decls(e.attrs), p) <==>
              !(p == DEFAULT_PREFIX && DefaultNamespaceLost(ctx, e, prefixes))
  {
    hide AddDeclarations, Decls, DeclsError, Blocked;
    var inner := SubContext(ctx, e.attrs).value;
    SubContextGood(ctx, e.attrs);
    AddsFaithfully(e.attrs, inner, prefixes);
    AddsAll(e.attrs, inner, prefixes, p);
    if p == DEFAULT_PREFIX && DefaultNamespaceLost(ctx, e, prefixes) {
      BlockedStays(e.attrs, inner, prefixes);
    }
  }

  /** In whatever order the loop meets the prefixes, every element name of the standalone copy means
      what it did in the document, unless it needs a default namespace that a decoy keeps from being
      declared, and then not. */
  lemma StandaloneKeepsNames(ctx: Context, e: Node, prefixes: seq<string>)
    requires e.Element? && GoodContext(ctx) && Standalone(ctx, e, prefixes).Ok?
    requires (forall p :: p in prefixes <==> p in ElementPrefixes(e))
    ensures NamesOf(DEFAULT_CONTEXT, Standalone(ctx, e, prefixes).value) == NamesOf(ctx, e)
       <==> !(DefaultNamespaceLost(ctx, e, prefixes) && DEFAULT_PREFIX in FreeNames(e))
  {
    hide DefaultNamespaceLost, AddDeclarations, DeclsError, GoodContext;
    var inner := ctx + Decls(e.attrs);
    var out := Standalone(ctx, e, prefixes).value;
    var scope := DEFAULT_CONTEXT + Decls(out.attrs);
    var free := {e.space} + FreeNamesAmong(e.child);
    FreeNamesAreUsed(e.child);
    forall p | p in free
      ensures Lookup(scope, p) == Lookup(inner, p) <==> !(p == DEFAULT_PREFIX && DefaultNamespaceLost(ctx, e, prefixes))
    {
      StandaloneScope(ctx, e, prefixes, p);
    }
    SameNamesAmong(scope, inner, e.child);
    assert NamesOf(DEFAULT_CONTEXT, out) == NamesOf(ctx, e) <==> Agree(scope, inner, free) by {
      assert e.space in free;
    }
    assert DefaultNamespaceLost(ctx, e, prefixes) && DEFAULT_PREFIX in free ==> DEFAULT_PREFIX in FreeNames(e) by {
      if DefaultNamespaceLost(ctx, e, prefixes) { LostIsUndeclared(ctx, e, prefixes); }
    }
  }

  lemma LostIsUndeclared(ctx: Context, e: Node, prefixes: seq<string>)
    requires e.Element? && DefaultNamespaceLost(ctx, e, prefixes)
    ensures DEFAULT_PREFIX !in Decls(e.attrs)
  {
  }

  const DECOYED: Node := Element("", "a", [DeclAttr("p", "u"), Attr("p", XMLNS_PREFIX, "x")], [])

  /** An input whose element name changes: `p:xmlns` is taken for a declaration of the default namespace. */
  lemma DecoyChangesName()
    ensures var ctx := DEFAULT_CONTEXT[DEFAULT_PREFIX := "d"];
            && Standalone(ctx, DECOYED, [""]).Ok?
            && NamesOf(DEFAULT_CONTEXT, Standalone(ctx, DECOYED, [""]).value) != NamesOf(ctx, DECOYED)
  {
    var ctx := DEFAULT_CONTEXT[DEFAULT_PREFIX := "d"];
    var decoy := Attr("p", XMLNS_PREFIX, "x");
    assert DECOYED.attrs[1..] == [decoy] && [decoy][1..] == [];
    assert !IsDecl(decoy) && Decls([decoy]) == map[];
    assert Decls(DECOYED.attrs) == map["p" := "u"];
    DeclsErrorNone(DECOYED.attrs);
    assert decoy in DECOYED.attrs && Decoy(decoy);
    assert DefaultNamespaceLost(ctx, DECOYED, [""]);
    assert DECOYED.child == [] && ElementPrefixesAmong([]) == {} && FreeNamesAmong([]) == {};
    assert Decls(DECOYED.attrs).Keys == {"p"};
    assert ElementPrefixes(DECOYED) == {""};
    assert FreeNames(DECOYED) == ({""} + {}) - {"p"} == {""};
    hide DefaultNamespaceLost, NamesOf, Standalone;
    StandaloneKeepsNames(ctx, DECOYED, [""]);
  }
}
