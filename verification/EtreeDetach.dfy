/** `NSDetatch` and `elementToBytes` as they are: a copy is made and its attributes are edited. */
module EtreeDetach {
  import opened Wrappers
  import opened Xml
  import opened AttrOrder
  import opened ExcC14n
  import opened Relocate
  import opened Etree
  import opened EtreeEdit
  import opened Traversal

  datatype DetachError = OverLimit | BadDeclaration(error: NsError)

  /** The loop over the prefixes in scope, in any order. */
  method AppendInScope(plain: seq<Attr>, inner: Context, ghost all: seq<Attr>) returns (attrs: seq<Attr>)
    requires forall a :: a in plain <==> a in Plain(all)
    ensures forall a :: a in attrs <==> a in Plain(all) || a in DeclAttrs(Carried(inner))
    ensures TieFree(plain) ==> TieFree(attrs)
  {
    hide TieFree, Tied, Plain, DeclAttrs;
    attrs := plain;
    var todo := inner.Keys;
    NothingCarried(inner);
    while todo != {}
      invariant todo <= inner.Keys
      invariant forall a :: a in attrs <==> a in Plain(all) || a in DeclAttrs(CarriedOf(inner, inner.Keys - todo))
      invariant TieFree(plain) ==> TieFree(attrs)
      decreases |todo|
    {
      var prefix :| prefix in todo;
      var namespace := inner[prefix];
      ghost var done := inner.Keys - todo;
      assert inner.Keys - (todo - {prefix}) == done + {prefix};
      if prefix == XMLNS_PREFIX || prefix == XML_PREFIX || (prefix == DEFAULT_PREFIX && namespace == XML_NAMESPACE) {
        assert CarriedOf(inner, done + {prefix}) == CarriedOf(inner, done);
      } else {
        var d := DeclAttr(prefix, namespace);
        assert CarriedOf(inner, done + {prefix}) == CarriedOf(inner, done)[prefix := namespace];
        DeclAttrsInsert(CarriedOf(inner, done), prefix, namespace);
        if TieFree(plain) {
          forall x | x in attrs ensures !Tied(x, d) {
            UntiedDeclaration(x, d, all, CarriedOf(inner, done));
          }
          AppendTieFree(attrs, d);
        }
        attrs := attrs + [d];
      }
      todo := todo - {prefix};
    }
    assert CarriedOf(inner, inner.Keys - todo) == Carried(inner);
  }

  ghost function CarriedOf(inner: Context, prefixes: set<string>): Context {
    map p | p in Carried(inner) && p in prefixes :: inner[p]
  }

  lemma NothingCarried(inner: Context)
    ensures DeclAttrs(CarriedOf(inner, inner.Keys - inner.Keys)) == {}
  {
  }

  lemma UntiedDeclaration(x: Attr, d: Attr, all: seq<Attr>, before: Context)
    requires IsDecl(d) && DeclPrefix(d) !in before && (x in Plain(all) || x in DeclAttrs(before))
    ensures !Tied(x, d)
  {
  }

  /** The new attribute list of a detached element. */
  method InScopeAttrs(space: string, all: seq<Attr>, inner: Context) returns (attrs: seq<Attr>)
    ensures forall a :: a in attrs <==> a in Redeclare(all, Carried(inner))
    ensures InTextOrder(attrs)
    ensures TieFree(all) ==> attrs == Redeclare(all, Carried(inner))
  {
    hide TieFree, Redeclare, Carried, Sorted, Plain, DeclAttrs, InTextOrder;
    var _, plain := FilterAttrs(space, all, {});
    var unsorted := AppendInScope(plain, inner, all);
    attrs := SortAttrs(unsorted);
    SameElements(unsorted, attrs);
    RedeclareElements(all, Carried(inner));
    if TieFree(all) {
      SortedUnique(attrs, Redeclare(all, Carried(inner)));
    }
  }

  /** `NSDetatch`. On success the result is a new tree which differs from the original in the
      declarations of its root only; an error is over the limit or in a declaration. */
  method NsDetach(limit: Limit?, ctx: Context, el: ElementNode) returns (r: Result<ElementNode, DetachError>)
    requires el.Valid()
    modifies limit
    ensures r == Err(OverLimit) <==> limit != null && old(limit.left) < Count(el.tree)
    ensures limit != null ==>
              limit.left == if r != Err(OverLimit) then old(limit.left) - Count(el.tree)
                            else if old(limit.left) < 0 then old(limit.left) else 0
    ensures r != Err(OverLimit) ==>
              var spec := Detach(ctx, el.tree);
              && (r.Err? ==> spec.Err? && r.error == BadDeclaration(spec.error))
              && (r.Ok? ==>
                    && spec.Ok? && fresh(r.value.repr) && r.value.Valid() && Alike(r.value.tree, spec.value)
                    && (TieFree(el.attrs) ==> r.value.tree == spec.value))
  {
    hide TieFree, Redeclare, Carried, Alike, Sorted, Plain, DeclAttrs, DeclsError, InTextOrder;
    ValidFields(el);
    var ok := CheckSubtreeLimit(limit, el);
    if !ok {
      return Err(OverLimit);
    }
    if DeclsError(el.attrs).Some? {
      return Err(BadDeclaration(DeclsError(el.attrs).value));
    }
    var inner := ctx + Decls(el.attrs);
    var copy := Copy(el);
    ValidFields(copy);
    var attrs := InScopeAttrs(copy.space, copy.attrs, inner);
    ghost var spec := Detach(ctx, el.tree).value;
    copy.attrs := attrs;
    copy.tree := copy.tree.(attrs := attrs);
    AlikeSelf(el.tree.child);
    AlikeElement(copy.tree, spec);
    r := Ok(copy);
  }

  lemma {:induction false} AlikeSelf(ns: seq<Node>)
    ensures AllAlike(ns, ns)
  {
    if ns != [] {
      if ns[0].Element? {
        AlikeSelf(ns[0].child);
      }
      AlikeSelf(ns[1..]);
    }
  }

  /** The prefixes of an element and of those below it. */
  method ElementSpaces(el: ElementNode) returns (spaces: seq<string>)
    requires el.Valid()
    ensures forall p :: p in spaces <==> p in ElementPrefixes(el.tree)
    decreases el.repr
  {
    ValidFields(el);
    ghost var trees := el.tree.child;
    ghost var footprint := el.repr - {el};
    assert Forest(el.child, footprint, trees) && |trees| == |el.child|;
    hide Forest, ElementNode.Valid, ElementPrefixesAmong;
    spaces := [el.space];
    NoPrefixesAmong();
    for k := 0 to |el.child|
      invariant forall p :: p in spaces <==> p in {el.space} + ElementPrefixesAmong(trees[..k])
    {
      ForestAt(el.child, footprint, trees, k);
      PrefixesNext(trees, k);
      if el.child[k].Child? {
        var below := ElementSpaces(el.child[k].el);
        spaces := spaces + below;
      }
    }
    assert trees[..|el.child|] == trees;
  }

  lemma NoPrefixesAmong()
    ensures ElementPrefixesAmong([]) == {}
  {
  }

  lemma PrefixesNext(ns: seq<Node>, k: nat)
    requires k < |ns|
    ensures ElementPrefixesAmong(ns[..k + 1]) == ElementPrefixesAmong(ns[..k]) + ElementPrefixes(ns[k])
  {
    assert ns[..k + 1] == ns[..k] + [ns[k]] && [ns[k]][1..] == [];
    PrefixesConcat(ns[..k], [ns[k]]);
  }

  lemma {:induction false} PrefixesConcat(ms: seq<Node>, ns: seq<Node>)
    ensures ElementPrefixesAmong(ms + ns) == ElementPrefixesAmong(ms) + ElementPrefixesAmong(ns)
  {
    if ms == [] {
      assert [] + ns == ns;
    } else {
      assert (ms + ns)[0] == ms[0] && (ms + ns)[1..] == ms[1..] + ns;
      PrefixesConcat(ms[1..], ns);
    }
  }

  /** The tree that `elementToBytes` serializes, and the order in which it met the prefixes. */
  method ToStandalone(ctx: Context, el: ElementNode)
    returns (r: Result<ElementNode, NsError>, prefixes: seq<string>)
    requires el.Valid()
    ensures forall p :: p in prefixes <==> p in ElementPrefixes(el.tree)
    ensures var spec := Standalone(ctx, el.tree, prefixes);
            && (r.Err? ==> spec.Err? && spec.error == r.error)
            && (r.Ok? ==> spec == Ok(r.value.tree) && fresh(r.value.repr) && r.value.Valid())
  {
    hide AddDeclarations, DeclsError, Skipped, Decls;
    ValidFields(el);
    prefixes := ElementSpaces(el);
    if DeclsError(el.attrs).Some? {
      return Err(DeclsError(el.attrs).value), prefixes;
    }
    var inner := ctx + Decls(el.attrs);
    var root := Copy(el);
    ValidFields(root);
    var attrs := root.attrs;
    for i := 0 to |prefixes|
      invariant root.Valid() && fresh(root.repr) && root.tree == el.tree
      invariant AddDeclarations(attrs, inner, prefixes[i..]) == AddDeclarations(el.attrs, inner, prefixes)
    {
      AddNext(attrs, inner, prefixes[i..]);
      SkippedNot(attrs, inner, prefixes[i]);
      if !Skipped(attrs, inner, prefixes[i]) {
        attrs := attrs + [DeclAttr(prefixes[i], inner[prefixes[i]])];
      }
      assert prefixes[i..][1..] == prefixes[i + 1..];
    }
    assert prefixes[|prefixes|..] == [];
    AddNone(attrs, inner);
    ValidFields(root);
    root.attrs := attrs;
    root.tree := root.tree.(attrs := attrs);
    r := Ok(root);
  }

  lemma SkippedNot(attrs: seq<Attr>, inner: Context, p: string)
    ensures !Skipped(attrs, inner, p) ==> p in inner
  {
  }

  lemma AddNone(attrs: seq<Attr>, inner: Context)
    ensures AddDeclarations(attrs, inner, []) == attrs
  {
  }

  lemma AddNext(attrs: seq<Attr>, inner: Context, prefixes: seq<string>)
    requires prefixes != []
    ensures var p := prefixes[0];
            var next := if Skipped(attrs, inner, p) then attrs else attrs + [DeclAttr(p, inner[p])];
            AddDeclarations(attrs, inner, prefixes) == AddDeclarations(next, inner, prefixes[1..])
  {
  }
}
