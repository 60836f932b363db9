/** Element trees and the namespace contexts of internal/dsig/etreeutils/namespace.go.

    An element name or attribute name is a prefix (`space`) and a local part. Namespace
    declarations are ordinary attributes, as in the tree library the repository uses, so a rewrite
    that drops or adds one can change what every name below it means. */
module Xml {
  import opened Wrappers

  const DEFAULT_PREFIX := ""
  const XMLNS_PREFIX := "xmlns"
  const XML_PREFIX := "xml"
  const XML_NAMESPACE := "http://www.w3.org/XML/1998/namespace"
  const XMLNS_NAMESPACE := "http://www.w3.org/2000/xmlns/"
  const DSIG_NAMESPACE := "http://www.w3.org/2000/09/xmldsig#"

  /** A local name. The XML reader never produces an empty one. */
  type Name = s: string | s != "" witness "a"

  datatype Attr = Attr(space: string, key: Name, value: string)

  /** `Other` stands for the directives and processing instructions, which nothing here changes. */
  datatype Node =
    | Element(space: string, tag: Name, attrs: seq<Attr>, child: seq<Node>)
    | Text(data: string)
    | Comment(data: string)
    | Other(data: string)

  datatype NsError = ReservedNamespace | InvalidDefaultNamespace | UndeclaredPrefix

  /** The prefixes in scope, with the namespace of each. */
  type Context = map<string, string>

  const DEFAULT_CONTEXT: Context :=
    map[DEFAULT_PREFIX := XML_NAMESPACE, XML_PREFIX := XML_NAMESPACE, XMLNS_PREFIX := XMLNS_NAMESPACE]

  predicate IsDecl(a: Attr) {
    a.space == XMLNS_PREFIX || (a.space == DEFAULT_PREFIX && a.key == XMLNS_PREFIX)
  }

  function DeclPrefix(a: Attr): string
    requires IsDecl(a)
  {
    if a.space == XMLNS_PREFIX then a.key else DEFAULT_PREFIX
  }

  /** The attribute which declares `prefix`. */
  function DeclAttr(prefix: string, namespace: string): (a: Attr)
    ensures IsDecl(a) && DeclPrefix(a) == prefix && a.value == namespace
  {
    if prefix == DEFAULT_PREFIX then Attr("", XMLNS_PREFIX, namespace) else Attr(XMLNS_PREFIX, prefix, namespace)
  }

  /** The declarations among `attrs`. The last declaration of a prefix is the one that counts. */
  function Decls(attrs: seq<Attr>): Context {
    if attrs == [] then map[]
    else (if IsDecl(attrs[0]) then map[DeclPrefix(attrs[0]) := attrs[0].value] else map[]) + Decls(attrs[1..])
  }

  /** The declarations that are never allowed. */
  function DeclError(a: Attr): Option<NsError> {
    if a.space == XMLNS_PREFIX then
      if a.key == XML_PREFIX && a.value != XML_NAMESPACE then Some(ReservedNamespace)
      else if a.key == XMLNS_PREFIX then Some(ReservedNamespace)
      else None
    else if a.space == DEFAULT_PREFIX && a.key == XMLNS_PREFIX && a.value == XMLNS_NAMESPACE then
      Some(InvalidDefaultNamespace)
    else None
  }

  /** The error for the first declaration that is not allowed, if there is one. */
  function DeclsError(attrs: seq<Attr>): Option<NsError> {
    if attrs == [] then None
    else if DeclError(attrs[0]).Some? then DeclError(attrs[0])
    else DeclsError(attrs[1..])
  }

  /** The context inside an element with `attrs` that occurs in `ctx`. */
  function SubContext(ctx: Context, attrs: seq<Attr>): Result<Context, NsError> {
    if DeclsError(attrs).Some? then Err(DeclsError(attrs).value) else Ok(ctx + Decls(attrs))
  }

  function Lookup(ctx: Context, prefix: string): Option<string> {
    if prefix in ctx then Some(ctx[prefix]) else None
  }

  /** What holds of every context that is reached from the default one. */
  predicate GoodContext(ctx: Context) {
    && DEFAULT_PREFIX in ctx && ctx[DEFAULT_PREFIX] != XMLNS_NAMESPACE
    && XML_PREFIX in ctx && ctx[XML_PREFIX] == XML_NAMESPACE
    && XMLNS_PREFIX in ctx && ctx[XMLNS_PREFIX] == XMLNS_NAMESPACE
  }

  /** The attributes that are not namespace declarations. */
  ghost function Plain(attrs: seq<Attr>): set<Attr> {
    set a | a in attrs && !IsDecl(a)
  }

  /** The prefixes that the element's own names use. An unprefixed attribute has no namespace. */
  ghost function OwnPrefixes(e: Node): set<string>
    requires e.Element?
  {
    {e.space} + (set a | a in Plain(e.attrs) && a.space != DEFAULT_PREFIX :: a.space)
  }

  lemma {:induction false} DeclsFrom(attrs: seq<Attr>, p: string) returns (a: Attr)
    requires p in Decls(attrs)
    ensures a in attrs && IsDecl(a) && DeclPrefix(a) == p && a.value == Decls(attrs)[p]
  {
    if p in Decls(attrs[1..]) {
      a := DeclsFrom(attrs[1..], p);
    } else {
      a := attrs[0];
    }
  }

  lemma {:induction false} DeclsHas(attrs: seq<Attr>, a: Attr)
    requires a in attrs && IsDecl(a)
    ensures DeclPrefix(a) in Decls(attrs)
  {
    if attrs[0] != a {
      DeclsHas(attrs[1..], a);
    }
  }

  lemma {:induction false} DeclsAppend(attrs: seq<Attr>, a: Attr)
    requires IsDecl(a)
    ensures Decls(attrs + [a]) == Decls(attrs)[DeclPrefix(a) := a.value]
    decreases |attrs|
  {
    hide IsDecl, DeclPrefix;
    if attrs == [] {
      assert [] + [a] == [a];
      assert [a][1..] == [];
    } else {
      assert (attrs + [a])[0] == attrs[0] && (attrs + [a])[1..] == attrs[1..] + [a];
      DeclsAppend(attrs[1..], a);
    }
  }

  lemma {:induction false} DeclsErrorNone(attrs: seq<Attr>)
    ensures DeclsError(attrs).None? <==> forall a :: a in attrs ==> DeclError(a).None?
  {
    if attrs != [] {
      DeclsErrorNone(attrs[1..]);
      assert forall a :: a in attrs <==> a == attrs[0] || a in attrs[1..];
    }
  }

  /** When the declarations are those of a map, in any order and among any plain attributes, they
      declare that map. */
  lemma DeclsAre(attrs: seq<Attr>, m: Context)
    requires forall a :: a in attrs && IsDecl(a) ==> DeclPrefix(a) in m && m[DeclPrefix(a)] == a.value
    requires forall p :: p in m ==> DeclAttr(p, m[p]) in attrs
    ensures Decls(attrs) == m
  {
    forall p | p in Decls(attrs) ensures p in m && m[p] == Decls(attrs)[p] {
      var a := DeclsFrom(attrs, p);
    }
    forall p | p in m ensures p in Decls(attrs) {
      DeclsHas(attrs, DeclAttr(p, m[p]));
    }
  }

  lemma SubContextGood(ctx: Context, attrs: seq<Attr>)
    requires GoodContext(ctx) && SubContext(ctx, attrs).Ok?
    ensures GoodContext(SubContext(ctx, attrs).value)
  {
    DeclsErrorNone(attrs);
    var ds := Decls(attrs);
    if XMLNS_PREFIX in ds {
      var a := DeclsFrom(attrs, XMLNS_PREFIX);
      assert false;
    }
    if XML_PREFIX in ds {
      var a := DeclsFrom(attrs, XML_PREFIX);
      assert DeclError(a).None?;
    }
    if DEFAULT_PREFIX in ds {
      var a := DeclsFrom(attrs, DEFAULT_PREFIX);
      assert DeclError(a).None?;
    }
  }

  predicate DeclaresIt(a: Attr, p: string) {
    (a.space == "xmlns" && a.key == p) || (a.space == "" && a.key == "xmlns" && p == "")
  }

  /** The place of the last declaration of `p`. */
  predicate LastDeclares(attrs: seq<Attr>, p: string, k: nat) {
    k < |attrs| && DeclaresIt(attrs[k], p) && forall i :: k < i < |attrs| ==> !DeclaresIt(attrs[i], p)
  }

  /** What is in scope inside an element: the last declaration on it counts, and otherwise what is around it. */
  lemma {:induction false} InScope(ctx: Context, attrs: seq<Attr>, p: string)
    ensures forall k: nat :: LastDeclares(attrs, p, k) ==> Lookup(ctx + Decls(attrs), p) == Some(attrs[k].value)
    ensures (forall k: nat :: !LastDeclares(attrs, p, k)) ==> Lookup(ctx + Decls(attrs), p) == Lookup(ctx, p)
    decreases |attrs|
  {
    hide LastDeclares, DeclaresIt, Decls;
    NoDeclarations(ctx, p);
    if attrs == [] {
      forall k: nat ensures !LastDeclares(attrs, p, k) { NothingDeclared(p, k); }
    } else {
      var n := |attrs| - 1;
      InScope(ctx, attrs[..n], p);
      assert attrs == attrs[..n] + [attrs[n]];
      OneMore(ctx, attrs[..n], attrs[n], p);
      forall k: nat ensures LastDeclares(attrs, p, k) <==>
        if DeclaresIt(attrs[n], p) then k == n else k < n && LastDeclares(attrs[..n], p, k)
      {
        LastDeclaresNext(attrs, p, k);
      }
      if DeclaresIt(attrs[n], p) {
        assert LastDeclares(attrs, p, n);
      } else if k: nat :| LastDeclares(attrs[..n], p, k) {
        LastDeclaresNext(attrs, p, k);
        IsInside(attrs[..n], p, k);
      }
    }
  }

  lemma IsInside(attrs: seq<Attr>, p: string, k: nat)
    requires LastDeclares(attrs, p, k)
    ensures k < |attrs|
  {
  }

  lemma NothingDeclared(p: string, k: nat)
    ensures !LastDeclares([], p, k)
  {
  }

  lemma NoDeclarations(ctx: Context, p: string)
    ensures Lookup(ctx + Decls([]), p) == Lookup(ctx, p)
  {
  }

  lemma OneMore(ctx: Context, attrs: seq<Attr>, a: Attr, p: string)
    ensures Lookup(ctx + Decls(attrs + [a]), p)
         == if DeclaresIt(a, p) then Some(a.value) else Lookup(ctx + Decls(attrs), p)
  {
    hide Decls;
    if IsDecl(a) { DeclsAppend(attrs, a); } else { DeclsAppendPlain(attrs, a); }
  }

  lemma LastDeclaresNext(attrs: seq<Attr>, p: string, k: nat)
    requires attrs != []
    ensures var n := |attrs| - 1;
            && (LastDeclares(attrs, p, k) <==> if DeclaresIt(attrs[n], p) then k == n else k < n && LastDeclares(attrs[..n], p, k))
            && (LastDeclares(attrs, p, k) ==> k < |attrs|)
  {
  }

  lemma {:induction false} DeclsAppendPlain(attrs: seq<Attr>, a: Attr)
    requires !IsDecl(a)
    ensures Decls(attrs + [a]) == Decls(attrs)
    decreases |attrs|
  {
    hide IsDecl, DeclPrefix;
    if attrs == [] {
      assert [] + [a] == [a] && [a][1..] == [];
    } else {
      assert (attrs + [a])[0] == attrs[0] && (attrs + [a])[1..] == attrs[1..] + [a];
      DeclsAppendPlain(attrs[1..], a);
    }
  }

  /** Another binding of the prefix xml, any of the prefix xmlns, and the namespace of that as the default one. */
  predicate Forbidden(a: Attr) {
    || (a.space == "xmlns" && a.key == "xml" && a.value != "http://www.w3.org/XML/1998/namespace")
    || (a.space == "xmlns" && a.key == "xmlns")
    || (a.space == "" && a.key == "xmlns" && a.value == "http://www.w3.org/2000/xmlns/")
  }

  /** There is no context inside an element if and only if some declaration on it is forbidden. The first such
      declaration says which error it is. */
  lemma RefusedExactly(ctx: Context, attrs: seq<Attr>)
    ensures SubContext(ctx, attrs).Err? <==> exists a :: a in attrs && Forbidden(a)
    ensures forall k :: 0 <= k < |attrs| && Forbidden(attrs[k]) && (forall i :: 0 <= i < k ==> !Forbidden(attrs[i])) ==>
              SubContext(ctx, attrs) == Err(if attrs[k].space == "" then InvalidDefaultNamespace else ReservedNamespace)
  {
    DeclsErrorNone(attrs);
    assert forall a :: DeclError(a).Some? <==> Forbidden(a);
    forall k | 0 <= k < |attrs| && Forbidden(attrs[k]) && (forall i :: 0 <= i < k ==> !Forbidden(attrs[i]))
      ensures SubContext(ctx, attrs) == Err(if attrs[k].space == "" then InvalidDefaultNamespace else ReservedNamespace)
    {
      FirstForbidden(attrs, k);
    }
  }

  lemma {:induction false} FirstForbidden(attrs: seq<Attr>, k: nat)
    requires k < |attrs| && Forbidden(attrs[k]) && forall i :: 0 <= i < k ==> !Forbidden(attrs[i])
    ensures DeclsError(attrs) == Some(if attrs[k].space == "" then InvalidDefaultNamespace else ReservedNamespace)
  {
    if k > 0 {
      assert !Forbidden(attrs[0]);
      FirstForbidden(attrs[1..], k - 1);
    }
  }

  function WithoutComments(ns: seq<Node>): seq<Node> {
    if ns == [] then [] else if ns[0].Comment? then WithoutComments(ns[1..]) else [ns[0]] + WithoutComments(ns[1..])
  }

  lemma {:induction false} WithoutCommentsConcat(ms: seq<Node>, ns: seq<Node>)
    ensures WithoutComments(ms + ns) == WithoutComments(ms) + WithoutComments(ns)
  {
    if ms == [] {
      assert [] + ns == ns;
    } else {
      assert (ms + ns)[0] == ms[0] && (ms + ns)[1..] == ms[1..] + ns;
      WithoutCommentsConcat(ms[1..], ns);
    }
  }

  lemma {:induction false} WithoutCommentsOnly(ns: seq<Node>)
    ensures forall n :: n in WithoutComments(ns) <==> n in ns && !n.Comment?
    ensures (forall n :: n in ns ==> !n.Comment?) ==> WithoutComments(ns) == ns
  {
    if ns != [] {
      WithoutCommentsOnly(ns[1..]);
      assert ns == [ns[0]] + ns[1..];
      assert forall n :: n in ns <==> n == ns[0] || n in ns[1..];
    }
  }
}
