/** `unmarshalElement` in service_provider.go up to the decoder: `elementToBytes`, then the removal of unused
    declarations. */
module Unmarshal {
  import opened Wrappers
  import opened Xml
  import opened Views
  import opened Relocate
  import opened Strip

  /** What is decoded: the standalone copy, read back, without the declarations that it does not use. */
  ghost function Decoded(ctx: Context, e: Node, prefixes: seq<string>): Result<Node, NsError>
    requires e.Element?
  {
    var standalone :- Standalone(ctx, e, prefixes);
    Ok(StripUnused(map[], standalone).node)
  }

  // ---------------------------------------------------------------- names outside Signatures

  predicate SignatureName(m: Names) {
    m.Names? && m.tag == SIGNATURE_TAG && m.namespace == Some(DSIG_NAMESPACE)
  }

  /** The element names are the same, but perhaps in what is a Signature below `m`. */
  ghost predicate SameButSignatures(m: Names, n: Names)
    decreases m, 1
  {
    if m.Unnamed? then n.Unnamed?
    else
      && n.Names? && n.space == m.space && n.namespace == m.namespace && n.tag == m.tag
      && AllSameButSignatures(m.child, n.child)
  }

  ghost predicate AllSameButSignatures(ms: seq<Names>, ns: seq<Names>)
    decreases ms, 0
  {
    && |ms| == |ns|
    && (ms != [] ==>
          && (SignatureName(ms[0]) || SameButSignatures(ms[0], ns[0]))
          && AllSameButSignatures(ms[1..], ns[1..]))
  }

  /** Some element name outside Signatures takes its namespace from the default one around `n`. */
  ghost predicate DefaultUsed(c: Context, n: Node)
    decreases n, 1
  {
    && n.Element? && DEFAULT_PREFIX !in Decls(n.attrs)
    && (n.space == DEFAULT_PREFIX || DefaultUsedAmong(c + Decls(n.attrs), n.child))
  }

  ghost predicate DefaultUsedAmong(c: Context, ns: seq<Node>)
    decreases ns, 0
  {
    && ns != []
    && ((!IsSignature(c, ns[0]) && DefaultUsed(c, ns[0])) || DefaultUsedAmong(c, ns[1..]))
  }

  /** `c` and `d` agree on the prefixes, but perhaps on the default one, where `d` has no namespace. Signatures
      can be told from `env` as from `d`. */
  ghost predicate AgreeButDefault(env: Context, c: Context, d: Context, prefixes: set<string>) {
    && Agree(c, d, prefixes - {DEFAULT_PREFIX})
    && (SameDefault(c, d) || Lookup(d, DEFAULT_PREFIX) == Some(XML_NAMESPACE))
    && forall p :: Lookup(env, p) == Some(DSIG_NAMESPACE) <==> Lookup(d, p) == Some(DSIG_NAMESPACE)
  }

  predicate SameDefault(c: Context, d: Context) {
    Lookup(c, DEFAULT_PREFIX) == Lookup(d, DEFAULT_PREFIX)
  }

  lemma AgreeInsideButDefault(env: Context, c: Context, d: Context, ds: Context, outer: set<string>, inner: set<string>)
    requires AgreeButDefault(env, c, d, outer) && inner - ds.Keys <= outer
    ensures AgreeButDefault(env + ds, c + ds, d + ds, inner)
    ensures SameDefault(c + ds, d + ds) <==> DEFAULT_PREFIX in ds || SameDefault(c, d)
  {
    forall p | p in inner - {DEFAULT_PREFIX} ensures Lookup(c + ds, p) == Lookup(d + ds, p) {
      if p !in ds {
        assert p in outer - {DEFAULT_PREFIX};
        assert Lookup(c, p) == Lookup(d, p);
      }
    }
    forall p
      ensures Lookup(env + ds, p) == Some(DSIG_NAMESPACE) <==> Lookup(d + ds, p) == Some(DSIG_NAMESPACE)
    {
      assert Lookup(env, p) == Some(DSIG_NAMESPACE) <==> Lookup(d, p) == Some(DSIG_NAMESPACE);
    }
  }

  lemma AgreeWithinButDefault(env: Context, c: Context, d: Context, outer: set<string>, inner: set<string>)
    requires AgreeButDefault(env, c, d, outer) && inner <= outer
    ensures AgreeButDefault(env, c, d, inner)
  {
  }

  /** What is no Signature in the one context is none in the other. */
  lemma SignatureInBoth(env: Context, c: Context, d: Context, n: Node)
    requires AgreeButDefault(env, c, d, FreeNames(n)) && IsSignature(env, n)
    ensures IsSignature(c, n)
  {
    var ds := Decls(n.attrs);
    assert n.space !in ds ==> n.space in FreeNames(n);
    if n.space !in ds {
      assert Lookup(env, n.space) == Some(DSIG_NAMESPACE) == Lookup(d, n.space);
      assert n.space != DEFAULT_PREFIX ==> Lookup(c, n.space) == Lookup(d, n.space);
    }
  }

  /** Where stripping keeps names outside Signatures, these are what they are in `c` if and only if none of them
      needs a default namespace that `d` does not have. */
  lemma {:induction false} NamesOutside(env: Context, c: Context, d: Context, n: Node, d': Context, out: Node)
    requires SameOutside(env, d, n, d', out) && AgreeButDefault(env, c, d, FreeNames(n))
    ensures SameButSignatures(NamesOf(c, n), NamesOf(d', out)) <==> SameDefault(c, d) || !DefaultUsed(c, n)
    decreases n, 1
  {
    hide Agree, AgreeButDefault, Decls, ViewAttrs, SameDefault;
    if n.Element? {
      var ds := Decls(n.attrs);
      AgreeInsideButDefault(env, c, d, ds, FreeNames(n), {n.space} + FreeNamesAmong(n.child));
      OwnName(env + ds, c + ds, d + ds, n.space, {n.space} + FreeNamesAmong(n.child));
      AgreeWithinButDefault(env + ds, c + ds, d + ds, {n.space} + FreeNamesAmong(n.child), FreeNamesAmong(n.child));
      AllNamesOutside(env + ds, c + ds, d + ds, n.child, d' + Decls(out.attrs), out.child);
    }
  }

  lemma OwnName(env: Context, c: Context, d: Context, p: string, prefixes: set<string>)
    requires AgreeButDefault(env, c, d, prefixes) && p in prefixes
    ensures Lookup(c, p) == Lookup(d, p) <==> SameDefault(c, d) || p != DEFAULT_PREFIX
  {
  }

  lemma {:induction false} AllNamesOutside(env: Context, c: Context, d: Context, ns: seq<Node>, d': Context, outs: seq<Node>)
    requires AllSameOutside(env, d, ns, d', outs) && AgreeButDefault(env, c, d, FreeNamesAmong(ns))
    ensures AllSameButSignatures(NamesAmong(c, ns), NamesAmong(d', outs)) <==>
              SameDefault(c, d) || !DefaultUsedAmong(c, ns)
    decreases ns, 0
  {
    hide AgreeButDefault, SameDefault, SameOutside, SameButSignatures, NamesOf, DefaultUsed, IsSignature, FreeNames;
    if ns != [] {
      AgreeWithinButDefault(env, c, d, FreeNamesAmong(ns), FreeNames(ns[0]));
      AgreeWithinButDefault(env, c, d, FreeNamesAmong(ns), FreeNamesAmong(ns[1..]));
      AllNamesOutside(env, c, d, ns[1..], d', outs[1..]);
      SignatureIsNamed(c, ns[0]);
      if !IsSignature(c, ns[0]) {
        if IsSignature(env, ns[0]) { SignatureInBoth(env, c, d, ns[0]); }
        NamesOutside(env, c, d, ns[0], d', outs[0]);
      }
      var x, y := NamesAmong(c, ns), NamesAmong(d', outs);
      assert x[0] == NamesOf(c, ns[0]) && x[1..] == NamesAmong(c, ns[1..]);
      assert y[0] == NamesOf(d', outs[0]) && y[1..] == NamesAmong(d', outs[1..]);
      NamesLength(c, ns);
      NamesLength(d', outs);
    }
  }

  lemma SignatureIsNamed(c: Context, n: Node)
    ensures SignatureName(NamesOf(c, n)) <==> IsSignature(c, n)
  {
  }

  lemma {:induction false} NamesLength(c: Context, ns: seq<Node>)
    ensures |NamesAmong(c, ns)| == |ns|
  {
    hide NamesOf;
    if ns != [] {
      NamesLength(c, ns[1..]);
    }
  }

  // ---------------------------------------------------------------- the two steps together

  /** What is decoded has every element name outside Signatures as it was in the document, if and only if it is
      not the case that one of them needs a default namespace which is lost. */
  lemma DecodedKeepsNames(ctx: Context, e: Node, prefixes: seq<string>)
    requires e.Element? && GoodContext(ctx) && Decoded(ctx, e, prefixes).Ok?
    requires forall p :: p in prefixes <==> p in ElementPrefixes(e)
    ensures SameButSignatures(NamesOf(ctx, e), NamesOf(DEFAULT_CONTEXT, Decoded(ctx, e, prefixes).value)) <==>
              !(DefaultNamespaceLost(ctx, e, prefixes) && DefaultUsed(ctx, e))
  {
    hide Standalone, StripUnused, SameOutside, AllSameOutside, DefaultNamespaceLost, AgreeButDefault, FreeNamesAmong;
    var out := Standalone(ctx, e, prefixes).value;
    StandaloneParts(ctx, e, prefixes);
    var stripped := StripUnused(map[], out).node;
    AgreeSelf(DEFAULT_CONTEXT, StripUnused(map[], out).used + {DEFAULT_PREFIX});
    KeepsNames(map[], DEFAULT_CONTEXT, DEFAULT_CONTEXT, out);
    StandaloneAgrees(ctx, e, prefixes);
    DecodedRoot(ctx, e, prefixes, stripped);
  }

  lemma AgreeSelf(c: Context, prefixes: set<string>)
    ensures Agree(c, c, prefixes)
  {
  }

  lemma StandaloneParts(ctx: Context, e: Node, prefixes: seq<string>)
    requires e.Element? && Standalone(ctx, e, prefixes).Ok?
    ensures var out := Standalone(ctx, e, prefixes).value;
            out.Element? && out.space == e.space && out.tag == e.tag && out.child == e.child
  {
  }

  /** The contexts inside the element and inside its copy. */
  lemma StandaloneAgrees(ctx: Context, e: Node, prefixes: seq<string>)
    requires e.Element? && GoodContext(ctx) && Standalone(ctx, e, prefixes).Ok?
    requires forall p :: p in prefixes <==> p in ElementPrefixes(e)
    ensures var ds := Decls(Standalone(ctx, e, prefixes).value.attrs);
            var inner, scope := ctx + Decls(e.attrs), DEFAULT_CONTEXT + ds;
            && AgreeButDefault(map[] + ds, inner, scope, {e.space} + FreeNamesAmong(e.child))
            && (DEFAULT_PREFIX in ElementPrefixes(e) ==>
                  (SameDefault(inner, scope) <==> !DefaultNamespaceLost(ctx, e, prefixes)))
  {
    hide Blocked, AddDeclarations, Decls, DeclsError, DefaultNamespaceLost;
    var ds := Decls(Standalone(ctx, e, prefixes).value.attrs);
    var inner, scope := ctx + Decls(e.attrs), DEFAULT_CONTEXT + ds;
    FreeNamesAreUsed(e.child);
    forall p | p in {e.space} + FreeNamesAmong(e.child)
      ensures Lookup(scope, p) == Lookup(inner, p) <==> !(p == DEFAULT_PREFIX && DefaultNamespaceLost(ctx, e, prefixes))
    {
      StandaloneScope(ctx, e, prefixes, p);
    }
    if DEFAULT_PREFIX in ElementPrefixes(e) {
      StandaloneScope(ctx, e, prefixes, DEFAULT_PREFIX);
    }
    DefaultOrNone(ctx, e, prefixes);
    forall p
      ensures Lookup(map[] + ds, p) == Some(DSIG_NAMESPACE) <==> Lookup(scope, p) == Some(DSIG_NAMESPACE)
    {
      NotReserved();
    }
  }

  lemma NotReserved()
    ensures XML_NAMESPACE != DSIG_NAMESPACE && XMLNS_NAMESPACE != DSIG_NAMESPACE
  {
    assert |XML_NAMESPACE| == 36 && |XMLNS_NAMESPACE| == 29 && |DSIG_NAMESPACE| == 34;
  }

  /** The copy has the default namespace of the element, or none. */
  lemma DefaultOrNone(ctx: Context, e: Node, prefixes: seq<string>)
    requires e.Element? && GoodContext(ctx) && Standalone(ctx, e, prefixes).Ok?
    ensures var scope := DEFAULT_CONTEXT + Decls(Standalone(ctx, e, prefixes).value.attrs);
            SameDefault(ctx + Decls(e.attrs), scope) || Lookup(scope, DEFAULT_PREFIX) == Some(XML_NAMESPACE)
  {
    hide AddDeclarations, Decls, DeclsError;
    AddsFaithfully(e.attrs, SubContext(ctx, e.attrs).value, prefixes);
  }

  lemma DecodedRoot(ctx: Context, e: Node, prefixes: seq<string>, stripped: Node)
    requires e.Element? && GoodContext(ctx) && Standalone(ctx, e, prefixes).Ok?
    requires forall p :: p in prefixes <==> p in ElementPrefixes(e)
    requires var out := Standalone(ctx, e, prefixes).value;
             && SameOutside(map[], DEFAULT_CONTEXT, out, DEFAULT_CONTEXT, stripped)
             && out.Element? && out.space == e.space && out.tag == e.tag && out.child == e.child
    requires var ds := Decls(Standalone(ctx, e, prefixes).value.attrs);
             var inner, scope := ctx + Decls(e.attrs), DEFAULT_CONTEXT + ds;
             && AgreeButDefault(map[] + ds, inner, scope, {e.space} + FreeNamesAmong(e.child))
             && (DEFAULT_PREFIX in ElementPrefixes(e) ==>
                   (SameDefault(inner, scope) <==> !DefaultNamespaceLost(ctx, e, prefixes)))
    ensures SameButSignatures(NamesOf(ctx, e), NamesOf(DEFAULT_CONTEXT, stripped)) <==>
              !(DefaultNamespaceLost(ctx, e, prefixes) && DefaultUsed(ctx, e))
  {
    hide Standalone, AllSameOutside, AgreeButDefault, SameDefault, Blocked, Decls, ViewAttrs, DefaultUsedAmong, NamesAmong,
         AllSameButSignatures, FreeNamesAmong, ElementPrefixes;
    var ds := Decls(Standalone(ctx, e, prefixes).value.attrs);
    var inner, scope := ctx + Decls(e.attrs), DEFAULT_CONTEXT + ds;
    var free := {e.space} + FreeNamesAmong(e.child);
    OwnName(map[] + ds, inner, scope, e.space, free);
    AgreeWithinButDefault(map[] + ds, inner, scope, free, FreeNamesAmong(e.child));
    AllNamesOutside(map[] + ds, inner, scope, e.child, DEFAULT_CONTEXT + Decls(stripped.attrs), stripped.child);
    UsedIsElementPrefix(inner, e);
  }

  lemma UsedIsElementPrefix(inner: Context, e: Node)
    requires e.Element?
    ensures e.space == DEFAULT_PREFIX || DefaultUsedAmong(inner, e.child) ==> DEFAULT_PREFIX in ElementPrefixes(e)
  {
    DefaultUsedIsPrefix(inner, e.child);
  }

  lemma {:induction false} DefaultUsedIsPrefix(c: Context, ns: seq<Node>)
    ensures DefaultUsedAmong(c, ns) ==> DEFAULT_PREFIX in ElementPrefixesAmong(ns)
    decreases ns
  {
    hide IsSignature, Decls;
    if ns != [] {
      DefaultUsedIsPrefix(c, ns[1..]);
      assert !ns[0].Element? ==> !DefaultUsed(c, ns[0]);
      if ns[0].Element? {
        DefaultUsedIsPrefix(c + Decls(ns[0].attrs), ns[0].child);
        assert DefaultUsed(c, ns[0]) ==> DEFAULT_PREFIX in ElementPrefixes(ns[0]);
      }
    }
  }
}
