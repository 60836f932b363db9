/** `stripUnusedNamespaceDeclarations` in service_provider.go: the removal of the declarations that
    nothing outside a Signature uses. */
module Strip {
  import opened Wrappers
  import opened Xml
  import opened Views
  import opened ExcC14n

  const SIGNATURE_TAG: Name := "Signature"

  /** A child which is a Signature, from what is declared above and on it. */
  predicate IsSignature(env: Context, n: Node) {
    n.Element? && n.tag == SIGNATURE_TAG && Lookup(env + Decls(n.attrs), n.space) == Some(DSIG_NAMESPACE)
  }

  /** The prefixes of the element's own names that the pass tracks: the default one is left alone. */
  ghost function OwnTracked(e: Node): set<string>
    requires e.Element?
  {
    OwnPrefixes(e) - {DEFAULT_PREFIX}
  }

  /** All attributes but the prefix declarations that are not in `used`, or that do not count because the element
      declares the prefix again. */
  function Retain(attrs: seq<Attr>, used: set<string>): seq<Attr> {
    if attrs == [] then []
    else if attrs[0].space == XMLNS_PREFIX && (attrs[0].key !in used || attrs[0].key in Decls(attrs[1..])) then
      Retain(attrs[1..], used)
    else [attrs[0]] + Retain(attrs[1..], used)
  }

  datatype Stripped = Stripped(node: Node, used: set<string>)

  /** The stripped element and the prefixes that it uses but does not declare. */
  ghost function StripUnused(env: Context, e: Node): (r: Stripped)
    requires e.Element?
    ensures r.node.Element?
    decreases e, 1
  {
    var inner := env + Decls(e.attrs);
    var (child, below) := StripChildren(inner, e.child);
    var used := OwnTracked(e) + below;
    Stripped(e.(attrs := Retain(e.attrs, used), child := child), used - Decls(e.attrs).Keys)
  }

  ghost function StripChildren(inner: Context, ns: seq<Node>): (seq<Node>, set<string>)
    decreases ns, 0
  {
    if ns == [] then ([], {})
    else
      var (rest, below) := StripChildren(inner, ns[1..]);
      if !ns[0].Element? then ([ns[0]] + rest, below)
      else
        var first := StripUnused(inner, ns[0]);
        ([first.node] + rest, if IsSignature(inner, ns[0]) then below else first.used + below)
  }

  // ---------------------------------------------------------------- what is in use

  /** The name that uses `p` is reached from `e` by `path`, through no Signature and with `p` declared
      nowhere on the way after `e`. */
  predicate UsedAt(env: Context, e: Node, path: seq<nat>, p: string)
    requires e.Element?
    decreases path
  {
    if path == [] then p == e.space || exists a :: a in e.attrs && !IsDecl(a) && a.space == p
    else
      var inner := env + Decls(e.attrs);
      && path[0] < |e.child| && e.child[path[0]].Element?
      && !IsSignature(inner, e.child[path[0]])
      && p !in Decls(e.child[path[0]].attrs)
      && UsedAt(inner, e.child[path[0]], path[1..], p)
  }

  ghost predicate Used(env: Context, e: Node, p: string)
    requires e.Element?
  {
    exists path :: UsedAt(env, e, path, p)
  }

  /** As Used, for a name in some child of `ns[from..]`. */
  ghost predicate UsedBelow(inner: Context, ns: seq<Node>, p: string) {
    exists i, path :: 0 <= i < |ns| && ns[i].Element? && !IsSignature(inner, ns[i]) && p !in Decls(ns[i].attrs)
                   && UsedAt(inner, ns[i], path, p)
  }

  lemma UsedSplit(env: Context, e: Node, p: string)
    requires e.Element? && p != DEFAULT_PREFIX
    ensures Used(env, e, p) <==> p in OwnTracked(e) || UsedBelow(env + Decls(e.attrs), e.child, p)
  {
    var inner := env + Decls(e.attrs);
    if Used(env, e, p) {
      var path :| UsedAt(env, e, path, p);
      if path == [] {
        if p != e.space {
          var a :| a in e.attrs && !IsDecl(a) && a.space == p;
          assert a in Plain(e.attrs);
        }
      } else {
        assert UsedAt(inner, e.child[path[0]], path[1..], p);
      }
    }
    if p in OwnTracked(e) {
      if p != e.space {
        var a :| a in Plain(e.attrs) && a.space == p;
      }
      assert UsedAt(env, e, [], p);
    }
    if UsedBelow(inner, e.child, p) {
      var i, path :| 0 <= i < |e.child| && e.child[i].Element? && !IsSignature(inner, e.child[i])
                  && p !in Decls(e.child[i].attrs) && UsedAt(inner, e.child[i], path, p);
      assert ([i] + path)[1..] == path;
      assert UsedAt(env, e, [i] + path, p);
    }
  }

  /** The prefixes that the pass returns are those used outside Signatures and bound by nothing in the
      element. */
  lemma {:induction false} ReturnsFree(env: Context, e: Node, p: string)
    requires e.Element?
    ensures p in StripUnused(env, e).used <==> p != DEFAULT_PREFIX && p !in Decls(e.attrs) && Used(env, e, p)
    decreases e, 1
  {
    if p != DEFAULT_PREFIX {
      UsedSplit(env, e, p);
    }
    ReturnsFreeBelow(env + Decls(e.attrs), e.child, p);
  }

  lemma {:induction false} ReturnsFreeBelow(inner: Context, ns: seq<Node>, p: string)
    ensures p in StripChildren(inner, ns).1 <==> p != DEFAULT_PREFIX && UsedBelow(inner, ns, p)
    decreases ns, 0
  {
    if ns != [] {
      ReturnsFreeBelow(inner, ns[1..], p);
      UsedBelowSplit(inner, ns, p);
      if ns[0].Element? {
        ReturnsFree(inner, ns[0], p);
      }
    }
  }

  lemma UsedBelowSplit(inner: Context, ns: seq<Node>, p: string)
    requires ns != []
    ensures UsedBelow(inner, ns, p) <==>
      || UsedBelow(inner, ns[1..], p)
      || (ns[0].Element? && !IsSignature(inner, ns[0]) && p !in Decls(ns[0].attrs) && Used(inner, ns[0], p))
  {
    hide IsSignature, UsedAt;
    var rest := ns[1..];
    if UsedBelow(inner, ns, p) {
      var i, path :| 0 <= i < |ns| && ns[i].Element? && !IsSignature(inner, ns[i]) && p !in Decls(ns[i].attrs)
                  && UsedAt(inner, ns[i], path, p);
      if i > 0 { assert ns[i] == rest[i - 1]; }
    }
    if UsedBelow(inner, rest, p) {
      var i, path :| 0 <= i < |rest| && rest[i].Element? && !IsSignature(inner, rest[i]) && p !in Decls(rest[i].attrs)
                  && UsedAt(inner, rest[i], path, p);
      assert rest[i] == ns[i + 1];
    }
  }

  // ---------------------------------------------------------------- what is removed

  /** The prefixes that `e` declares and that some name outside Signatures takes from it. */
  ghost function Live(env: Context, e: Node): set<string>
    requires e.Element?
  {
    set p | p in Decls(e.attrs) && p != DEFAULT_PREFIX && Used(env, e, p)
  }

  /** `out` is `n` without exactly the prefix declarations that bind nothing outside Signatures, here
      and all the way down. */
  ghost predicate DeadRemoved(env: Context, n: Node, out: Node)
    decreases n, 1
  {
    if !n.Element? then out == n
    else
      && out.Element? && out.space == n.space && out.tag == n.tag
      && out.attrs == Retain(n.attrs, Live(env, n))
      && AllDeadRemoved(env + Decls(n.attrs), n.child, out.child)
  }

  ghost predicate AllDeadRemoved(inner: Context, ns: seq<Node>, outs: seq<Node>)
    decreases ns, 0
  {
    && |ns| == |outs|
    && (ns != [] ==> DeadRemoved(inner, ns[0], outs[0]) && AllDeadRemoved(inner, ns[1..], outs[1..]))
  }

  /** A prefix declaration is retained if and only if its prefix is in the set and it is the one that counts; the rest
      is always kept. */
  lemma {:induction false} RetainElements(attrs: seq<Attr>, used: set<string>, a: Attr)
    ensures a in Retain(attrs, used) <==>
              a in attrs && (a.space == XMLNS_PREFIX ==> a.key in used && Lookup(Decls(attrs), a.key) == Some(a.value))
  {
    if attrs != [] {
      var rest := attrs[1..];
      RetainElements(rest, used, a);
      assert a in attrs <==> a == attrs[0] || a in rest;
      if a in rest && a.space == XMLNS_PREFIX {
        DeclsHas(rest, a);
      }
      if a == attrs[0] && a.space == XMLNS_PREFIX && a.key in Decls(rest) {
        var b := DeclsFrom(rest, a.key);
        assert Decls(attrs)[a.key] == b.value;
      }
    }
  }

  lemma {:induction false} RetainSame(attrs: seq<Attr>, s: set<string>, t: set<string>)
    requires forall p :: p in Decls(attrs) && p != DEFAULT_PREFIX ==> (p in s <==> p in t)
    ensures Retain(attrs, s) == Retain(attrs, t)
  {
    if attrs != [] {
      RetainSame(attrs[1..], s, t);
    }
  }

  lemma {:induction false} RetainDecls(attrs: seq<Attr>, used: set<string>, p: string)
    ensures Lookup(Decls(Retain(attrs, used)), p)
         == if p == DEFAULT_PREFIX || p in used then Lookup(Decls(attrs), p) else None
  {
    if attrs != [] {
      RetainDecls(attrs[1..], used, p);
    }
  }

  lemma {:induction false} RemovesDead(env: Context, e: Node)
    requires e.Element?
    ensures DeadRemoved(env, e, StripUnused(env, e).node)
    decreases e, 1
  {
    var inner := env + Decls(e.attrs);
    var used := OwnTracked(e) + StripChildren(inner, e.child).1;
    forall p | p in Decls(e.attrs) && p != DEFAULT_PREFIX ensures p in used <==> p in Live(env, e) {
      UsedSplit(env, e, p);
      ReturnsFreeBelow(inner, e.child, p);
    }
    RetainSame(e.attrs, used, Live(env, e));
    RemovesAllDead(inner, e.child);
  }

  lemma {:induction false} RemovesAllDead(inner: Context, ns: seq<Node>)
    ensures AllDeadRemoved(inner, ns, StripChildren(inner, ns).0)
    decreases ns, 0
  {
    if ns != [] {
      RemovesAllDead(inner, ns[1..]);
      if ns[0].Element? { RemovesDead(inner, ns[0]); }
    }
  }

  // ---------------------------------------------------------------- what is kept

  /** Every name of `n` outside Signatures means the same in `out`, where `c` is in scope around `n`
      and `d` around `out`. Signatures are told from `env`. */
  ghost predicate SameOutside(env: Context, c: Context, n: Node, d: Context, out: Node)
    decreases n, 1
  {
    if !n.Element? then out == n
    else
      && out.Element? && out.space == n.space && out.tag == n.tag
      && var c', d' := c + Decls(n.attrs), d + Decls(out.attrs);
      && Lookup(c', n.space) == Lookup(d', n.space)
      && ViewAttrs(c', n.attrs) == ViewAttrs(d', out.attrs)
      && AllSameOutside(env + Decls(n.attrs), c', n.child, d', out.child)
  }

  ghost predicate AllSameOutside(inner: Context, c: Context, ns: seq<Node>, d: Context, outs: seq<Node>)
    decreases ns, 0
  {
    && |ns| == |outs|
    && (ns != [] ==>
          && (IsSignature(inner, ns[0]) || SameOutside(inner, c, ns[0], d, outs[0]))
          && AllSameOutside(inner, c, ns[1..], d, outs[1..]))
  }

  /** No name outside Signatures changes its meaning, wherever the result is put, as long as that place
      agrees with the old one on the default namespace and the returned prefixes. */
  lemma {:induction false} KeepsNames(env: Context, c: Context, d: Context, e: Node)
    requires e.Element? && Agree(c, d, StripUnused(env, e).used + {DEFAULT_PREFIX})
    ensures SameOutside(env, c, e, d, StripUnused(env, e).node)
    decreases e, 1
  {
    hide Agree, ViewAttrs, IsSignature;
    var inner := env + Decls(e.attrs);
    var used := OwnTracked(e) + StripChildren(inner, e.child).1;
    var out := StripUnused(env, e).node;
    var c', d' := c + Decls(e.attrs), d + Decls(out.attrs);
    RetainedAgree(c, d, e.attrs, used);
    RetainedPlain(e.attrs, used);
    assert Agree(c', d', OwnPrefixes(e)) && Agree(c', d', StripChildren(inner, e.child).1 + {DEFAULT_PREFIX}) by {
      AgreeWithin(c', d', used + {DEFAULT_PREFIX}, OwnPrefixes(e));
      AgreeWithin(c', d', used + {DEFAULT_PREFIX}, StripChildren(inner, e.child).1 + {DEFAULT_PREFIX});
    }
    ViewAttrsAgree(c', d', e);
    SamePlainSameViews(d', e.attrs, out.attrs);
    AgreeAt(c', d', OwnPrefixes(e), e.space);
    AllKeepNames(inner, c', d', e.child);
  }

  lemma AgreeAt(c: Context, d: Context, s: set<string>, p: string)
    requires Agree(c, d, s) && p in s
    ensures Lookup(c, p) == Lookup(d, p)
  {
  }

  lemma AgreeWithin(c: Context, d: Context, s: set<string>, t: set<string>)
    requires Agree(c, d, s) && t <= s
    ensures Agree(c, d, t)
  {
  }

  lemma RetainedAgree(c: Context, d: Context, attrs: seq<Attr>, used: set<string>)
    requires Agree(c, d, (used - Decls(attrs).Keys) + {DEFAULT_PREFIX})
    ensures Agree(c + Decls(attrs), d + Decls(Retain(attrs, used)), used + {DEFAULT_PREFIX})
  {
    hide Retain, Decls;
    forall p | p in used + {DEFAULT_PREFIX}
      ensures Lookup(c + Decls(attrs), p) == Lookup(d + Decls(Retain(attrs, used)), p)
    {
      RetainDecls(attrs, used, p);
      if p !in Decls(attrs) {
        assert Lookup(c, p) == Lookup(d, p);
        assert Lookup(Decls(Retain(attrs, used)), p) == None;
      }
    }
  }

  lemma RetainedPlain(attrs: seq<Attr>, used: set<string>)
    ensures Plain(Retain(attrs, used)) == Plain(attrs)
  {
    hide Retain;
    forall a ensures a in Plain(Retain(attrs, used)) <==> a in Plain(attrs) {
      RetainElements(attrs, used, a);
    }
  }

  lemma {:induction false} AllKeepNames(inner: Context, c: Context, d: Context, ns: seq<Node>)
    requires Agree(c, d, StripChildren(inner, ns).1 + {DEFAULT_PREFIX})
    ensures AllSameOutside(inner, c, ns, d, StripChildren(inner, ns).0)
    decreases ns, 0
  {
    if ns != [] {
      AllKeepNames(inner, c, d, ns[1..]);
      if ns[0].Element? && !IsSignature(inner, ns[0]) {
        KeepsNames(inner, c, d, ns[0]);
      }
    }
  }

  /** A prefix declaration on the element itself is still there if and only if a name outside Signatures uses it. */
  lemma DeclarationKept(env: Context, e: Node, p: string)
    requires e.Element? && p != DEFAULT_PREFIX
    ensures Lookup(Decls(StripUnused(env, e).node.attrs), p) == if Used(env, e, p) then Lookup(Decls(e.attrs), p) else None
  {
    hide Used, Decls, Retain;
    var inner := env + Decls(e.attrs);
    RetainDecls(e.attrs, OwnTracked(e) + StripChildren(inner, e.child).1, p);
    UsedSplit(env, e, p);
    ReturnsFreeBelow(inner, e.child, p);
  }

  /** In particular one that the name of a child uses, unless that is a Signature of XML Signature: another element with
      that local name, or in that namespace, does not make a difference. */
  lemma ChildKeepsDeclaration(env: Context, e: Node, i: nat)
    requires e.Element? && i < |e.child| && e.child[i].Element? && e.child[i].space != DEFAULT_PREFIX
    requires var c := e.child[i];
             && c.space !in Decls(c.attrs)
             && (c.tag != "Signature"
                 || Lookup(env + Decls(e.attrs) + Decls(c.attrs), c.space) != Some("http://www.w3.org/2000/09/xmldsig#"))
    ensures Lookup(Decls(StripUnused(env, e).node.attrs), e.child[i].space) == Lookup(Decls(e.attrs), e.child[i].space)
  {
    hide StripUnused;
    var p := e.child[i].space;
    assert UsedAt(env + Decls(e.attrs), e.child[i], [], p);
    assert [i][1..] == [];
    assert UsedAt(env, e, [i], p);
    DeclarationKept(env, e, p);
  }

  const SIGNATURE: Node := Element("ds", SIGNATURE_TAG, [], [])
  const SIGNED: Node := Element("", "a", [DeclAttr("ds", DSIG_NAMESPACE)], [SIGNATURE])

  /** An input that loses the declaration which its Signature needs. */
  lemma SignatureUnbound()
    ensures WellScoped(DEFAULT_CONTEXT, SIGNED) && IsSignature(Decls(SIGNED.attrs), SIGNATURE)
    ensures !WellScoped(DEFAULT_CONTEXT, StripUnused(map[], SIGNED).node)
  {
    assert SIGNED.attrs[1..] == [] && SIGNED.child[1..] == [];
    assert Decls(SIGNED.attrs) == map["ds" := DSIG_NAMESPACE] && Decls(SIGNATURE.attrs) == map[];
    assert OwnPrefixes(SIGNED) == {""} && OwnPrefixes(SIGNATURE) == {"ds"};
    assert DeclsError(SIGNED.attrs).None? && DeclsError(SIGNATURE.attrs).None?;
    var inner := DEFAULT_CONTEXT + Decls(SIGNED.attrs);
    assert WellScoped(inner, SIGNATURE);
    assert AllWellScoped(inner, SIGNED.child[1..]);
    assert AllWellScoped(inner, SIGNED.child);
    assert WellScoped(DEFAULT_CONTEXT, SIGNED);
    var out := StripUnused(map[], SIGNED).node;
    assert map[] + Decls(SIGNED.attrs) == Decls(SIGNED.attrs);
    OnlySignature(Decls(SIGNED.attrs));
    hide StripChildren;
    assert OwnTracked(SIGNED) + {} == {};
    assert out.attrs == Retain(SIGNED.attrs, {}) == [] && out.child == [SIGNATURE];
    assert !WellScoped(DEFAULT_CONTEXT + Decls([]), SIGNATURE);
  }

  lemma OnlySignature(inner: Context)
    requires IsSignature(inner, SIGNATURE)
    ensures StripChildren(inner, [SIGNATURE]).0 == [SIGNATURE] && StripChildren(inner, [SIGNATURE]).1 == {}
  {
    assert SIGNATURE.child == [] && StripChildren(inner + Decls([]), []) == ([], {});
    assert StripUnused(inner, SIGNATURE).node == SIGNATURE;
    hide StripUnused, IsSignature;
    assert [SIGNATURE][1..] == [] && StripChildren(inner, []) == ([], {});
  }

  // ---------------------------------------------------------------- trees without Signatures

  ghost predicate SignatureFree(env: Context, n: Node)
    decreases n, 1
  {
    n.Element? ==> AllSignatureFree(env + Decls(n.attrs), n.child)
  }

  ghost predicate AllSignatureFree(inner: Context, ns: seq<Node>)
    decreases ns, 0
  {
    ns != [] ==> !IsSignature(inner, ns[0]) && SignatureFree(inner, ns[0]) && AllSignatureFree(inner, ns[1..])
  }

  lemma {:induction false} SameOutsideSameView(env: Context, c: Context, n: Node, d: Context, out: Node, with: bool)
    requires SignatureFree(env, n) && SameOutside(env, c, n, d, out)
    ensures ViewOf(c, n, with) == ViewOf(d, out, with)
    decreases n, 1
  {
    hide ViewAttrs, IsSignature;
    if n.Element? {
      AllSameOutsideSameViews(env + Decls(n.attrs), c + Decls(n.attrs), n.child, d + Decls(out.attrs), out.child, with);
    }
  }

  lemma {:induction false} AllSameOutsideSameViews(
      inner: Context, c: Context, ns: seq<Node>, d: Context, outs: seq<Node>, with: bool)
    requires AllSignatureFree(inner, ns) && AllSameOutside(inner, c, ns, d, outs)
    ensures ViewsOf(c, ns, with) == ViewsOf(d, outs, with)
    decreases ns, 0
  {
    hide IsSignature;
    if ns != [] {
      SameOutsideSameView(inner, c, ns[0], d, outs[0], with);
      AllSameOutsideSameViews(inner, c, ns[1..], d, outs[1..], with);
    }
  }

  /** The result is well scoped wherever the element was. */
  lemma {:induction false} KeepsScoping(env: Context, c: Context, d: Context, e: Node)
    requires e.Element? && SignatureFree(env, e) && WellScoped(c, e)
    requires Agree(c, d, StripUnused(env, e).used + {DEFAULT_PREFIX})
    ensures WellScoped(d, StripUnused(env, e).node)
    decreases e, 1
  {
    hide IsSignature;
    var inner := env + Decls(e.attrs);
    var used := OwnTracked(e) + StripChildren(inner, e.child).1;
    var out := StripUnused(env, e).node;
    RetainedAgree(c, d, e.attrs, used);
    RetainedPlain(e.attrs, used);
    assert OwnPrefixes(out) == OwnPrefixes(e);
    forall p | p in OwnPrefixes(e) ensures p in d + Decls(out.attrs) {
      assert Lookup(c + Decls(e.attrs), p) == Lookup(d + Decls(out.attrs), p);
    }
    DeclsErrorNone(e.attrs);
    DeclsErrorNone(out.attrs);
    forall a | a in out.attrs ensures a in e.attrs { RetainElements(e.attrs, used, a); }
    AllKeepScoping(inner, c + Decls(e.attrs), d + Decls(out.attrs), e.child);
  }

  lemma {:induction false} AllKeepScoping(inner: Context, c: Context, d: Context, ns: seq<Node>)
    requires AllSignatureFree(inner, ns) && AllWellScoped(c, ns)
    requires Agree(c, d, StripChildren(inner, ns).1 + {DEFAULT_PREFIX})
    ensures AllWellScoped(d, StripChildren(inner, ns).0)
    decreases ns, 0
  {
    hide IsSignature;
    if ns != [] {
      AllKeepScoping(inner, c, d, ns[1..]);
      if ns[0].Element? {
        KeepsScoping(inner, c, d, ns[0]);
      }
    }
  }

  /** Without Signatures, stripping leaves the exclusive canonical form as it was. */
  lemma KeepsForm(env: Context, scope: Context, declared: Context, e: Node, comments: bool)
    requires e.Element? && SignatureFree(env, e) && WellScoped(scope, e)
    ensures WellScoped(scope, StripUnused(env, e).node)
    ensures Exc(scope, declared, StripUnused(env, e).node, {}, comments) == Exc(scope, declared, e, {}, comments)
  {
    KeepsNames(env, scope, scope, e);
    KeepsScoping(env, scope, scope, e);
    SameOutsideSameView(env, scope, e, scope, StripUnused(env, e).node, comments);
    SameViewSameForm(scope, scope, declared, StripUnused(env, e).node, e, comments);
  }
}
