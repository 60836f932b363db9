/** The tree library's elements as they are: objects that the repository's functions rewrite in place.

    Each method is proved to do to the tree what the functions of the other modules say. */
module Etree {
  import opened Wrappers
  import opened Xml
  import opened AttrOrder
  import opened ExcC14n

  datatype Token = Child(el: ElementNode) | Leaf(node: Node)

  class ElementNode {
    var space: string
    var tag: Name
    var attrs: seq<Attr>
    var child: seq<Token>

    ghost var repr: set<ElementNode>  // the elements of the tree
    ghost var tree: Node  // the tree

    ghost predicate Valid()
      reads this, repr
      decreases repr, 0
    {
      && this in repr
      && tree.Element? && tree.space == space && tree.tag == tag && tree.attrs == attrs
      && Forest(child, repr - {this}, tree.child)
    }

    constructor (space: string, tag: Name)
      ensures Valid() && fresh(repr) && tree == Element(space, tag, [], [])
      ensures this.space == space && this.tag == tag && attrs == [] && child == [] && repr == {this}
    {
      this.space, this.tag, attrs, child := space, tag, [], [];
      repr, tree := {this}, Element(space, tag, [], []);
    }
  }

  /** The tokens stand for `trees`, share nothing, and are made of the elements in `footprint`. */
  ghost predicate Forest(child: seq<Token>, footprint: set<ElementNode>, trees: seq<Node>)
    reads footprint
    decreases footprint, 1
  {
    && |trees| == |child|
    && (forall i :: 0 <= i < |child| && child[i].Child? ==>
          child[i].el in footprint && child[i].el.repr <= footprint && child[i].el.Valid() && child[i].el.tree == trees[i])
    && (forall i :: 0 <= i < |child| && child[i].Leaf? ==> child[i].node == trees[i] && !trees[i].Element?)
    && (forall i, j :: 0 <= i < j < |child| && child[i].Child? && child[j].Child? ==>
          child[i].el.repr !! child[j].el.repr)
  }

  /** What a forest says about one token. */
  lemma ForestAt(child: seq<Token>, footprint: set<ElementNode>, trees: seq<Node>, k: nat)
    requires k < |child| && Forest(child, footprint, trees)
    ensures |trees| == |child|
    ensures child[k].Leaf? ==> child[k].node == trees[k] && !trees[k].Element?
    ensures child[k].Child? ==>
              && child[k].el in footprint && child[k].el in child[k].el.repr && child[k].el.repr <= footprint
              && child[k].el.Valid() && child[k].el.tree == trees[k] && trees[k].Element?
  {
  }

  lemma ValidFields(el: ElementNode)
    requires el.Valid()
    ensures el in el.repr
    ensures el.tree.Element? && el.tree.space == el.space && el.tree.tag == el.tag && el.tree.attrs == el.attrs
  {
  }

  lemma MakeValid(el: ElementNode)
    requires el in el.repr && el.tree.Element? && el.tree.space == el.space && el.tree.tag == el.tag
    requires el.tree.attrs == el.attrs && Forest(el.child, el.repr - {el}, el.tree.child)
    ensures el.Valid()
  {
  }

  // ---------------------------------------------------------------- exclusive canonicalization

  /** What `ns` comes to when the first `k` nodes have become `done`. */
  lemma {:induction false} ExcAllElementwise(
      scope: Context, declared: Context, ns: seq<Node>, inclusive: set<string>, comments: bool, done: seq<Node>)
    requires |done| == |ns| && (comments || forall n :: n in ns ==> !n.Comment?)
    requires forall i :: 0 <= i < |ns| ==> Exc(scope, declared, ns[i], inclusive, comments) == Ok(done[i])
    ensures ExcAll(scope, declared, ns, inclusive, comments) == Ok(done)
  {
    hide Exc;
    if ns != [] {
      ExcAllElementwise(scope, declared, ns[1..], inclusive, comments, done[1..]);
      assert done == [done[0]] + done[1..];
      assert ns[0] in ns;
      assert Exc(scope, declared, ns[0], inclusive, comments) == Ok(done[0]);
    }
  }

  lemma {:induction false} ExcAllFails(
      scope: Context, declared: Context, ns: seq<Node>, inclusive: set<string>, comments: bool, k: nat)
    requires k < |ns| && (comments || forall n :: n in ns ==> !n.Comment?)
    requires forall i :: 0 <= i < k ==> Exc(scope, declared, ns[i], inclusive, comments).Ok?
    requires Exc(scope, declared, ns[k], inclusive, comments).Err?
    ensures ExcAll(scope, declared, ns, inclusive, comments)
         == Err(Exc(scope, declared, ns[k], inclusive, comments).error)
  {
    hide Exc;
    assert ns[0] in ns;
    if k > 0 {
      assert Exc(scope, declared, ns[0], inclusive, comments).Ok?;
      ExcAllFails(scope, declared, ns[1..], inclusive, comments, k - 1);
    }
  }

  lemma {:induction false} ExcAllSkipsComments(
      scope: Context, declared: Context, ns: seq<Node>, inclusive: set<string>)
    ensures ExcAll(scope, declared, ns, inclusive, false)
         == ExcAll(scope, declared, WithoutComments(ns), inclusive, false)
  {
    hide Exc;
    if ns != [] {
      ExcAllSkipsComments(scope, declared, ns[1..], inclusive);
      if !ns[0].Comment? {
        assert WithoutComments(ns)[1..] == WithoutComments(ns[1..]);
      }
    }
  }

  /** The prefixes that are visibly utilized by an element name and the attributes. */
  ghost function Prefixes(space: string, attrs: seq<Attr>, inclusive: set<string>): set<string> {
    {space}
    + (set a | a in attrs && !IsDecl(a) && a.space != DEFAULT_PREFIX :: a.space)
    + (set a | a in attrs && IsDecl(a) && DeclPrefix(a) in inclusive :: DeclPrefix(a))
  }

  lemma PrefixesAppend(space: string, attrs: seq<Attr>, a: Attr, inclusive: set<string>)
    ensures Prefixes(space, attrs + [a], inclusive) == Prefixes(space, attrs, inclusive) +
              (if IsDecl(a) then {DeclPrefix(a)} * inclusive else {a.space} - {DEFAULT_PREFIX})
  {
    hide IsDecl, DeclPrefix;
    var s, t := attrs, attrs + [a];
    assert forall x :: x in t <==> x in s || x == a;
  }

  lemma PrefixesAreUtilized(e: Node, inclusive: set<string>)
    requires e.Element?
    ensures Utilized(e, inclusive) == Prefixes(e.space, e.attrs, inclusive)
  {
    hide Decls, IsDecl, DeclPrefix;
    forall p | p in Decls(e.attrs).Keys * inclusive ensures p in Prefixes(e.space, e.attrs, inclusive) {
      var a := DeclsFrom(e.attrs, p);
    }
    forall a | a in e.attrs && IsDecl(a) ensures DeclPrefix(a) in Decls(e.attrs) {
      DeclsHas(e.attrs, a);
    }
  }

  /** The loop which drops the declarations and collects the prefixes that are visibly utilized. */
  method FilterAttrs(space: string, attrs: seq<Attr>, inclusive: set<string>)
    returns (utilized: set<string>, filtered: seq<Attr>)
    ensures utilized == Prefixes(space, attrs, inclusive)
    ensures forall a :: a in filtered <==> a in Plain(attrs)
    ensures TieFree(attrs) ==> TieFree(filtered)
  {
    hide Tied, TieFree, Prefixes;
    NoPrefixes(space, inclusive);
    utilized, filtered := {space}, [];
    for k := 0 to |attrs|
      invariant forall a :: a in filtered <==> a in attrs[..k] && !IsDecl(a)
      invariant utilized == Prefixes(space, attrs[..k], inclusive)
      invariant TieFree(attrs) ==> TieFree(filtered)
    {
      var attr := attrs[k];
      assert attrs[..k + 1] == attrs[..k] + [attr];
      PrefixesAppend(space, attrs[..k], attr, inclusive);
      if attr.space == XMLNS_PREFIX {
        if attr.key in inclusive {
          utilized := utilized + {attr.key};
        }
      } else if attr.space == DEFAULT_PREFIX && attr.key == XMLNS_PREFIX {
        if DEFAULT_PREFIX in inclusive {
          utilized := utilized + {DEFAULT_PREFIX};
        }
      } else {
        if attr.space != DEFAULT_PREFIX {
          utilized := utilized + {attr.space};
        }
        if TieFree(attrs) {
          EarlierUntied(attrs, k, filtered);
          AppendTieFree(filtered, attr);
        }
        filtered := filtered + [attr];
      }
    }
    assert attrs[..|attrs|] == attrs;
  }

  lemma NoPrefixes(space: string, inclusive: set<string>)
    ensures Prefixes(space, [], inclusive) == {space} && TieFree([])
  {
  }

  lemma EarlierUntied(attrs: seq<Attr>, k: nat, some: seq<Attr>)
    requires k < |attrs| && TieFree(attrs) && forall a :: a in some ==> a in attrs[..k]
    ensures forall a :: a in some ==> !Tied(a, attrs[k])
  {
    hide Tied;
    forall a | a in some ensures !Tied(a, attrs[k]) {
      var j :| 0 <= j < k && attrs[j] == a;
    }
  }

  lemma AppendTieFree(attrs: seq<Attr>, a: Attr)
    requires TieFree(attrs) && forall x :: x in attrs ==> !Tied(x, a)
    ensures TieFree(attrs + [a])
  {
    hide Tied;
    var r := attrs + [a];
    forall i, j | 0 <= i < j < |r| ensures !Tied(r[i], r[j]) {
      assert r[i] in attrs;
      if j < |attrs| { assert !Tied(attrs[i], attrs[j]); }
    }
  }

  /** The state of the next loop once the prefixes `done` are declared. */
  ghost predicate DeclaredSoFar(
      e: Node, scope: Context, declared: Context, done: set<string>, attrs: seq<Attr>, declared': Context)
    requires e.Element?
  {
    && done <= scope.Keys
    && declared' == declared + Bindings(scope, done)
    && (forall a :: a in attrs <==> a in Plain(e.attrs) || a in DeclAttrs(Bindings(scope, done)))
  }

  lemma DeclareOne(e: Node, scope: Context, declared: Context, done: set<string>, attrs: seq<Attr>,
                   declared': Context, p: string)
    requires e.Element? && DeclaredSoFar(e, scope, declared, done, attrs, declared') && p in scope && p !in done
    ensures DeclaredSoFar(e, scope, declared, done + {p}, attrs + [DeclAttr(p, scope[p])], declared'[p := scope[p]])
    ensures TieFree(attrs) ==> TieFree(attrs + [DeclAttr(p, scope[p])])
  {
    hide Tied, Plain, TieFree, DeclAttrs, IsDecl, DeclAttr, DeclPrefix;
    var d := DeclAttr(p, scope[p]);
    var before := Bindings(scope, done);
    assert Bindings(scope, done + {p}) == before[p := scope[p]];
    DeclAttrsInsert(before, p, scope[p]);
    forall x | x in attrs ensures !Tied(x, d) { DeclUntied(x, d, e, before); }
    if TieFree(attrs) {
      AppendTieFree(attrs, d);
    }
  }

  /** The loop which declares what is not declared yet, over the prefixes in any order. */
  method DeclareMissing(filtered: seq<Attr>, utilized: set<string>, scope: Context, declared: Context,
                        ghost e: Node, ghost inclusive: set<string>)
    returns (undeclared: Option<string>, attrs: seq<Attr>, declared': Context)
    requires e.Element? && utilized == Utilized(e, inclusive)
    requires forall a :: a in filtered <==> a in Plain(e.attrs)
    ensures undeclared.None? <==> Missing(declared, scope, e, inclusive) <= scope.Keys
    ensures undeclared.Some? ==> undeclared.value in Missing(declared, scope, e, inclusive) && undeclared.value !in scope
    ensures undeclared.None? ==>
              && DeclaredSoFar(e, scope, declared, Missing(declared, scope, e, inclusive), attrs, declared')
              && (TieFree(filtered) ==> TieFree(attrs))
  {
    hide Utilized, TieFree, DeclaredSoFar;
    var todo := utilized;
    attrs, declared' := filtered, declared;
    ghost var missing := Missing(declared, scope, e, inclusive);
    NoneDeclared(e, scope, declared, filtered);
    assert missing - todo == {};
    while todo != {}
      invariant todo <= utilized
      invariant missing - todo <= scope.Keys
      invariant DeclaredSoFar(e, scope, declared, missing - todo, attrs, declared')
      invariant TieFree(filtered) ==> TieFree(attrs)
      decreases |todo|
    {
      var prefix :| prefix in todo;
      NotYetDeclared(e, scope, declared, missing - todo, attrs, declared', prefix);
      if AlreadyDeclared(declared', scope, prefix) {
        assert missing - (todo - {prefix}) == missing - todo;
      } else if prefix !in scope {
        assert prefix in missing;
        return Some(prefix), attrs, declared';
      } else {
        assert missing - (todo - {prefix}) == (missing - todo) + {prefix};
        DeclareOne(e, scope, declared, missing - todo, attrs, declared', prefix);
        attrs := attrs + [DeclAttr(prefix, scope[prefix])];
        declared' := declared'[prefix := scope[prefix]];
      }
      todo := todo - {prefix};
    }
    assert missing - todo == missing;
    undeclared := None;
  }

  lemma NoneDeclared(e: Node, scope: Context, declared: Context, attrs: seq<Attr>)
    requires e.Element? && forall a :: a in attrs <==> a in Plain(e.attrs)
    ensures DeclaredSoFar(e, scope, declared, {}, attrs, declared)
  {
    assert Bindings(scope, {}) == map[];
  }

  lemma NotYetDeclared(e: Node, scope: Context, declared: Context, done: set<string>, attrs: seq<Attr>,
                       declared': Context, p: string)
    requires e.Element? && DeclaredSoFar(e, scope, declared, done, attrs, declared') && p !in done
    ensures AlreadyDeclared(declared', scope, p) <==> AlreadyDeclared(declared, scope, p)
  {
  }

  lemma DeclUntied(x: Attr, d: Attr, e: Node, before: Context)
    requires e.Element? && IsDecl(d) && DeclPrefix(d) !in before
    requires x in Plain(e.attrs) || x in DeclAttrs(before)
    ensures !Tied(x, d)
  {
  }

  lemma DeclAttrsInsert(m: Context, p: string, v: string)
    requires p !in m
    ensures DeclAttrs(m[p := v]) == DeclAttrs(m) + {DeclAttr(p, v)}
  {
    forall a | a in DeclAttrs(m[p := v]) ensures a in DeclAttrs(m) + {DeclAttr(p, v)} {
      var q :| q in m[p := v] && a == DeclAttr(q, m[p := v][q]);
      if q != p { assert a == DeclAttr(q, m[q]); }
    }
    forall a | a in DeclAttrs(m) ensures a in DeclAttrs(m[p := v]) {
      var q :| q in m && a == DeclAttr(q, m[q]);
      assert m[p := v][q] == m[q];
    }
    assert DeclAttr(p, v) == DeclAttr(p, m[p := v][p]);
  }

  /** The loop which removes the comments from the children of an element. */
  method RemoveComments(el: ElementNode)
    requires el.Valid()
    modifies el`child, el`tree
    ensures el.Valid()
    ensures el.tree == old(el.tree).(child := WithoutComments(old(el.tree).child))
  {
    ghost var trees := el.tree.child;
    ghost var footprint := el.repr - {el};
    assert Forest(el.child, footprint, trees);
    assert |trees| == |el.child|;
    ValidFields(el);
    hide Forest, WithoutComments, ElementNode.Valid;
    var c := 0;
    while c < |el.child|
      invariant c <= |el.child| == |trees| && el.tree == old(el.tree)
      invariant Forest(el.child, footprint, trees)
      invariant forall i :: 0 <= i < c ==> !trees[i].Comment?
      invariant WithoutComments(trees) == WithoutComments(old(el.tree).child)
      decreases |el.child| - c
    {
      ForestAt(el.child, footprint, trees, c);
      if el.child[c].Leaf? && el.child[c].node.Comment? {
        ForestDrop(el.child, footprint, trees, c);
        WithoutCommentAt(trees, c);
        trees := trees[..c] + trees[c + 1..];
        el.child := el.child[..c] + el.child[c + 1..];
      } else {
        c := c + 1;
      }
    }
    WithoutCommentsOnly(trees);
    el.tree := el.tree.(child := trees);
    MakeValid(el);
  }

  lemma WithoutCommentAt(ns: seq<Node>, c: nat)
    requires c < |ns| && ns[c].Comment?
    ensures WithoutComments(ns[..c] + ns[c + 1..]) == WithoutComments(ns)
  {
    assert ns == ns[..c] + ns[c..] && ns[c..][1..] == ns[c + 1..];
    WithoutCommentsConcat(ns[..c], ns[c..]);
    WithoutCommentsConcat(ns[..c], ns[c + 1..]);
  }

  /** A leaf can be dropped. */
  lemma ForestDrop(child: seq<Token>, footprint: set<ElementNode>, trees: seq<Node>, c: nat)
    requires c < |child| && child[c].Leaf? && Forest(child, footprint, trees)
    ensures Forest(child[..c] + child[c + 1..], footprint, trees[..c] + trees[c + 1..])
  {
    hide ElementNode.Valid;
    var child', trees' := child[..c] + child[c + 1..], trees[..c] + trees[c + 1..];
    forall i | 0 <= i < |child'|
      ensures child'[i] == child[if i < c then i else i + 1] && trees'[i] == trees[if i < c then i else i + 1] {}
  }

  /** A child that was rewritten within its own elements can be put in the place of what it was. */
  lemma ForestUpdate(child: seq<Token>, footprint: set<ElementNode>, trees: seq<Node>, k: nat, reprs: seq<set<ElementNode>>)
    requires k < |child| == |trees| == |reprs| && child[k].Child?
    requires forall i :: 0 <= i < |child| && child[i].Child? ==>
               && child[i].el in footprint && child[i].el.repr == reprs[i] && reprs[i] <= footprint
               && child[i].el.Valid() && (i != k ==> child[i].el.tree == trees[i])
    requires forall i :: 0 <= i < |child| && child[i].Leaf? ==> child[i].node == trees[i] && !trees[i].Element?
    requires forall i, j :: 0 <= i < j < |child| && child[i].Child? && child[j].Child? ==> reprs[i] !! reprs[j]
    ensures Forest(child, footprint, trees[k := child[k].el.tree])
  {
    ValidElement(child[k].el);
    hide ElementNode.Valid;
  }

  /** The elements of each child. */
  ghost function Reprs(child: seq<Token>): (r: seq<set<ElementNode>>)
    reads set i | 0 <= i < |child| && child[i].Child? :: child[i].el
    ensures |r| == |child| && forall i :: 0 <= i < |child| ==> r[i] == if child[i].Child? then child[i].el.repr else {}
  {
    seq(|child|, i requires 0 <= i < |child| reads if 0 <= i < |child| && child[i].Child? then {child[i].el} else {} =>
      if child[i].Child? then child[i].el.repr else {})
  }

  lemma ForestParts(child: seq<Token>, footprint: set<ElementNode>, trees: seq<Node>, k: nat)
    requires k < |child| && child[k].Child? && Forest(child, footprint, trees)
    ensures |trees| == |child|
    ensures forall i :: 0 <= i < |child| && child[i].Child? ==>
              && child[i].el in footprint && child[i].el in child[i].el.repr && child[i].el.repr <= footprint
              && child[i].el.Valid() && child[i].el.tree == trees[i]
              && (i != k ==> child[i].el.repr !! child[k].el.repr)
    ensures forall i :: 0 <= i < |child| && child[i].Leaf? ==> child[i].node == trees[i] && !trees[i].Element?
    ensures forall i, j :: 0 <= i < j < |child| && child[i].Child? && child[j].Child? ==>
              child[i].el.repr !! child[j].el.repr
  {
  }

  lemma ValidElement(el: ElementNode)
    requires el.Valid()
    ensures el in el.repr && el.tree.Element?
  {
  }

  /** `transformExcC14n`. On success the tree has become its exclusive canonical form, but for the
      order of tied attributes; an error is the one that form has. */
  method TransformExcC14n(el: ElementNode, ctx: Context, declared: Context, inclusive: set<string>, comments: bool)
    returns (err: Option<NsError>)
    requires el.Valid()
    modifies el.repr
    ensures el.repr == old(el.repr)
    ensures err.None? ==>
              var spec := Exc(ctx, declared, old(el.tree), inclusive, comments);
              && el.Valid() && spec.Ok?
              && Alike(el.tree, spec.value)
              && (TieFreeTree(old(el.tree)) ==> el.tree == spec.value)
    ensures err.Some? ==> Exc(ctx, declared, old(el.tree), inclusive, comments) == Err(err.value)
    decreases el.repr, 2
  {
    hide Exc, ExcAll, TieFree, Alike, AllAlike, Redeclare, DeclaredSoFar, Missing, Utilized, Plain, Sorted,
         InTextOrder, RivalsInText, Clear, Arranged, InOrder, WeaklySorted, DeclaresOnce;
    ghost var e := el.tree;
    if DeclsError(el.attrs).Some? {
      ExcOfElement(ctx, declared, e, inclusive, comments);
      return Some(DeclsError(el.attrs).value);
    }
    var scope := ctx + Decls(el.attrs);
    var utilized, filtered := FilterAttrs(el.space, el.attrs, inclusive);
    PrefixesAreUtilized(e, inclusive);
    var undeclared, attrs, declared' := DeclareMissing(filtered, utilized, scope, declared, e, inclusive);
    ExcOfElement(ctx, declared, e, inclusive, comments);
    if undeclared.Some? {
      return Some(UndeclaredPrefix);
    }
    var sorted := SortAttrs(attrs);
    SortedIsRedeclared(e, scope, declared, inclusive, attrs, sorted, declared');
    el.attrs := sorted;
    el.tree := el.tree.(attrs := sorted);
    if !comments {
      RemoveComments(el);
      ExcAllSkipsComments(scope, declared', e.child, inclusive);
      WithoutCommentsOnly(e.child);
    }
    ghost var left := el.tree.child;
    err := TransformChildren(el, scope, declared', inclusive, comments);
    if err.None? {
      ghost var spec := Exc(ctx, declared, e, inclusive, comments).value;
      AlikeElement(el.tree, spec);
    }
  }

  /** The state of the loop over the children `was` when the first `k` are transformed. */
  ghost predicate TransformedSoFar(
      scope: Context, declared: Context, was: seq<Node>, k: nat, inclusive: set<string>, comments: bool,
      trees: seq<Node>, specs: seq<Node>)
  {
    && |specs| == k <= |trees| == |was|
    && (forall i :: k <= i < |was| ==> trees[i] == was[i])
    && (forall i :: 0 <= i < k ==>
          && Exc(scope, declared, was[i], inclusive, comments) == Ok(specs[i])
          && Alike(trees[i], specs[i])
          && (TieFreeTree(was[i]) ==> trees[i] == specs[i]))
  }

  lemma TransformStart(scope: Context, declared: Context, was: seq<Node>, inclusive: set<string>, comments: bool)
    ensures TransformedSoFar(scope, declared, was, 0, inclusive, comments, was, [])
  {
  }

  lemma TransformRest(
      scope: Context, declared: Context, was: seq<Node>, k: nat, inclusive: set<string>, comments: bool,
      trees: seq<Node>, specs: seq<Node>)
    requires k < |was| && TransformedSoFar(scope, declared, was, k, inclusive, comments, trees, specs)
    ensures |trees| == |was| && trees[k] == was[k]
  {
  }

  /** One round of the loop. */
  lemma TransformNext(
      scope: Context, declared: Context, was: seq<Node>, k: nat, inclusive: set<string>, comments: bool,
      trees: seq<Node>, specs: seq<Node>, now: Node)
    requires k < |was| && TransformedSoFar(scope, declared, was, k, inclusive, comments, trees, specs)
    requires Exc(scope, declared, was[k], inclusive, comments).Ok?
    requires var spec := Exc(scope, declared, was[k], inclusive, comments).value;
             Alike(now, spec) && (TieFreeTree(was[k]) ==> now == spec)
    ensures TransformedSoFar(scope, declared, was, k + 1, inclusive, comments, trees[k := now],
                             specs + [Exc(scope, declared, was[k], inclusive, comments).value])
  {
    hide Exc, Alike, TieFreeTree;
  }

  lemma TransformFails(
      scope: Context, declared: Context, was: seq<Node>, k: nat, inclusive: set<string>, comments: bool,
      trees: seq<Node>, specs: seq<Node>)
    requires k < |was| && TransformedSoFar(scope, declared, was, k, inclusive, comments, trees, specs)
    requires Exc(scope, declared, was[k], inclusive, comments).Err? && (comments || forall n :: n in was ==> !n.Comment?)
    ensures ExcAll(scope, declared, was, inclusive, comments)
         == Err(Exc(scope, declared, was[k], inclusive, comments).error)
  {
    hide Exc, ExcAll, Alike, TieFreeTree;
    ExcAllFails(scope, declared, was, inclusive, comments, k);
  }

  lemma TransformEnd(
      scope: Context, declared: Context, was: seq<Node>, inclusive: set<string>, comments: bool,
      trees: seq<Node>, specs: seq<Node>)
    requires TransformedSoFar(scope, declared, was, |was|, inclusive, comments, trees, specs)
    requires comments || forall n :: n in was ==> !n.Comment?
    ensures ExcAll(scope, declared, was, inclusive, comments) == Ok(specs) && AllAlike(trees, specs)
    ensures (forall n :: n in was ==> TieFreeTree(n)) ==> trees == specs
  {
    hide Exc, ExcAll, Alike, AllAlike, TieFreeTree;
    ExcAllElementwise(scope, declared, was, inclusive, comments, specs);
    AllAlikeElementwise(trees, specs);
  }

  /** The recursive calls, on each child in turn. */
  method TransformChildren(el: ElementNode, scope: Context, declared: Context, inclusive: set<string>, comments: bool)
    returns (err: Option<NsError>)
    requires el.Valid() && (comments || forall n :: n in el.tree.child ==> !n.Comment?)
    modifies el.repr
    ensures el.repr == old(el.repr)
    ensures err.None? ==>
              var spec := ExcAll(scope, declared, old(el.tree.child), inclusive, comments);
              && el.Valid() && spec.Ok? && el.tree == old(el.tree).(child := el.tree.child)
              && AllAlike(el.tree.child, spec.value)
              && ((forall n :: n in old(el.tree.child) ==> TieFreeTree(n)) ==> el.tree.child == spec.value)
    ensures err.Some? ==> ExcAll(scope, declared, old(el.tree.child), inclusive, comments) == Err(err.value)
    decreases el.repr, 1
  {
    ghost var trees := el.tree.child;
    ghost var was := trees;
    ghost var specs: seq<Node> := [];
    ghost var footprint := el.repr - {el};
    assert Forest(el.child, footprint, trees) && |trees| == |el.child|;
    ValidFields(el);
    hide Exc, ExcAll, Alike, AllAlike, TieFreeTree, TransformedSoFar, Forest, ElementNode.Valid;
    TransformStart(scope, declared, was, inclusive, comments);
    for k := 0 to |el.child|
      invariant unchanged(el)
      invariant Forest(el.child, footprint, trees) && |trees| == |was|
      invariant TransformedSoFar(scope, declared, was, k, inclusive, comments, trees, specs)
    {
      TransformRest(scope, declared, was, k, inclusive, comments, trees, specs);
      ghost var now;
      err, now := TransformChild(el, footprint, trees, k, scope, declared, inclusive, comments);
      if err.Some? {
        TransformFails(scope, declared, was, k, inclusive, comments, trees, specs);
        return;
      }
      TransformNext(scope, declared, was, k, inclusive, comments, trees, specs, now);
      specs := specs + [Exc(scope, declared, was[k], inclusive, comments).value];
      trees := trees[k := now];
    }
    TransformEnd(scope, declared, was, inclusive, comments, trees, specs);
    el.tree := el.tree.(child := trees);
    MakeValid(el);
    err := None;
  }

  /** The recursive call on one child, which leaves the others as they were. */
  method TransformChild(el: ElementNode, ghost footprint: set<ElementNode>, ghost trees: seq<Node>, k: nat,
                        scope: Context, declared: Context, inclusive: set<string>, comments: bool)
    returns (err: Option<NsError>, ghost now: Node)
    requires k < |el.child| && el !in footprint && footprint < el.repr && Forest(el.child, footprint, trees)
    requires |trees| == |el.child|
    modifies footprint
    ensures err.None? ==>
              var spec := Exc(scope, declared, trees[k], inclusive, comments);
              && spec.Ok? && Forest(el.child, footprint, trees[k := now])
              && Alike(now, spec.value) && (TieFreeTree(trees[k]) ==> now == spec.value)
    ensures err.Some? ==> Exc(scope, declared, trees[k], inclusive, comments) == Err(err.value)
    decreases el.repr, 0
  {
    hide Exc, Alike, TieFreeTree, Forest, ElementNode.Valid;
    ForestAt(el.child, footprint, trees, k);
    now := trees[k];
    if el.child[k].Child? {
      var c := el.child[k].el;
      ghost var reprs := Reprs(el.child);
      ForestParts(el.child, footprint, trees, k);
      err := TransformExcC14n(c, scope, declared, inclusive, comments);
      if err.None? {
        ForestUpdate(el.child, footprint, trees, k, reprs);
        now := c.tree;
      }
    } else {
      LeafUnchanged(scope, declared, trees[k], inclusive, comments);
      assert trees[k := now] == trees;
      err := None;
    }
  }

  lemma LeafUnchanged(scope: Context, declared: Context, n: Node, inclusive: set<string>, comments: bool)
    requires !n.Element?
    ensures Exc(scope, declared, n, inclusive, comments) == Ok(n) && Alike(n, n)
  {
  }

  /** One step of the specification. */
  lemma ExcOfElement(ctx: Context, declared: Context, e: Node, inclusive: set<string>, comments: bool)
    requires e.Element?
    ensures var spec := Exc(ctx, declared, e, inclusive, comments);
            if DeclsError(e.attrs).Some? then spec == Err(DeclsError(e.attrs).value)
            else
              var scope := ctx + Decls(e.attrs);
              var missing := Missing(declared, scope, e, inclusive);
              if !(missing <= scope.Keys) then spec == Err(UndeclaredPrefix)
              else
                var added := Bindings(scope, missing);
                var child := ExcAll(scope, declared + added, e.child, inclusive, comments);
                if child.Err? then spec == Err(child.error)
                else spec == Ok(Element(e.space, e.tag, Redeclare(e.attrs, added), child.value))
  {
  }

  lemma SortedIsRedeclared(e: Node, scope: Context, declared: Context, inclusive: set<string>,
                           attrs: seq<Attr>, sorted: seq<Attr>, declared': Context)
    requires e.Element? && multiset(sorted) == multiset(attrs)
    requires DeclaredSoFar(e, scope, declared, Missing(declared, scope, e, inclusive), attrs, declared')
    ensures var added := Bindings(scope, Missing(declared, scope, e, inclusive));
            && declared' == declared + added
            && (forall a :: a in sorted <==> a in Redeclare(e.attrs, added))
            && (Sorted(sorted) ==> sorted == Redeclare(e.attrs, added))
  {
    hide AttrLess, Sorted, Missing, Plain, DeclAttrs;
    var added := Bindings(scope, Missing(declared, scope, e, inclusive));
    SameElements(attrs, sorted);
    RedeclareElements(e.attrs, added);
    if Sorted(sorted) {
      SortedUnique(sorted, Redeclare(e.attrs, added));
    }
  }
}
