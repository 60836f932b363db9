/** More functions that edit elements in place: the removal of unused declarations and of a KeyInfo in
    service_provider.go, and the path functions and `transform` of internal/dsig/validate.go. */
module EtreeEdit {
  import opened Wrappers
  import opened Xml
  import opened AttrOrder
  import opened Strip
  import opened Enveloped
  import opened KeyInfo
  import opened Etree

  // ---------------------------------------------------------------- stripUnusedNamespaceDeclarations

  /** `RemoveAttr("xmlns:" + key)`: the first such attribute goes. */
  function RemoveDecl(attrs: seq<Attr>, key: string): seq<Attr> {
    if attrs == [] then []
    else if attrs[0].space == XMLNS_PREFIX && attrs[0].key == key then attrs[1..]
    else [attrs[0]] + RemoveDecl(attrs[1..], key)
  }

  ghost function DeclaredKeys(attrs: seq<Attr>): set<string> {
    set a | a in attrs && a.space == XMLNS_PREFIX :: a.key
  }

  lemma DeclaredKeysAppend(attrs: seq<Attr>, a: Attr)
    ensures DeclaredKeys(attrs + [a]) == DeclaredKeys(attrs) + (if a.space == XMLNS_PREFIX then {a.key} else {})
  {
    assert forall x :: x in attrs + [a] <==> x in attrs || x == a;
  }

  /** The loop over a copy of the attributes, which removes from the attributes themselves. Of a prefix in use that is
      declared again it removes the first declaration, and so the last one is left. */
  method RemoveUnused(attrs: seq<Attr>, used: set<string>) returns (left: seq<Attr>, free: set<string>)
    ensures left == Retain(attrs, used)
    ensures free == used - DeclaredKeys(attrs)
  {
    hide RemoveDecl, DeclaredKeys, Retain;
    left, free := attrs, used;
    NoKeys(used);
    for i := 0 to |attrs|
      invariant left == Retain(attrs[..i], used) + attrs[i..]
      invariant free == used - DeclaredKeys(attrs[..i])
    {
      var attr := attrs[i];
      RemoveNext(attrs, used, i);
      if attr.space == XMLNS_PREFIX {
        if attr.key in free {
          free := free - {attr.key};
        } else {
          left := RemoveDecl(left, attr.key);
        }
      }
    }
    assert attrs[..|attrs|] == attrs;
  }

  lemma NoKeys(used: set<string>)
    ensures DeclaredKeys([]) == {} && Retain([], used) == []
  {
  }

  predicate Declares(a: Attr, key: string) {
    a.space == XMLNS_PREFIX && a.key == key
  }

  ghost predicate SomeDeclares(s: seq<Attr>, key: string) {
    exists a :: a in s && Declares(a, key)
  }

  lemma SomeDeclaresSplit(s: seq<Attr>, key: string)
    requires s != []
    ensures SomeDeclares(s, key) <==> Declares(s[0], key) || SomeDeclares(s[1..], key)
  {
    assert s == [s[0]] + s[1..];
  }

  /** One round of the loop. */
  lemma RemoveNext(attrs: seq<Attr>, used: set<string>, i: nat)
    requires i < |attrs|
    ensures var a, left, next := attrs[i], Retain(attrs[..i], used) + attrs[i..], Retain(attrs[..i + 1], used) + attrs[i + 1..];
            && DeclaredKeys(attrs[..i + 1]) == DeclaredKeys(attrs[..i]) + (if a.space == XMLNS_PREFIX then {a.key} else {})
            && next == if a.space == XMLNS_PREFIX && a.key !in used - DeclaredKeys(attrs[..i]) then RemoveDecl(left, a.key)
                       else left
  {
    hide DeclaredKeys, Retain, RemoveDecl;
    var a := attrs[i];
    var before := Retain(attrs[..i], used);
    assert attrs[..i + 1] == attrs[..i] + [a] && attrs[i..] == [a] + attrs[i + 1..];
    DeclaredKeysAppend(attrs[..i], a);
    RetainAppend(attrs[..i], a, used);
    assert before + [a] + attrs[i + 1..] == before + attrs[i..];
    if a.space == XMLNS_PREFIX {
      RetainedDeclares(attrs[..i], used, a.key);
      if SomeDeclares(before, a.key) {
        RemoveDeclThere(before, attrs[i..], a.key);
      } else {
        RemoveDeclAbsent(before, attrs[i..], a.key);
      }
      RemoveDeclNext(a, attrs[i + 1..], a.key);
      var gone := RemoveDecl(before, a.key);
      assert gone + [a] + attrs[i + 1..] == gone + attrs[i..];
    }
  }

  /** Among what is retained there is a declaration of the prefix exactly when it is in use and was declared. */
  lemma RetainedDeclares(attrs: seq<Attr>, used: set<string>, key: Name)
    ensures SomeDeclares(Retain(attrs, used), key) <==> key in used && key in DeclaredKeys(attrs)
  {
    hide Retain, Decls;
    if SomeDeclares(Retain(attrs, used), key) {
      var a :| a in Retain(attrs, used) && Declares(a, key);
      RetainElements(attrs, used, a);
    }
    if key in used && key in DeclaredKeys(attrs) {
      var a :| a in attrs && a.space == XMLNS_PREFIX && a.key == key;
      DeclsHas(attrs, a);
      var b := DeclsFrom(attrs, key);
      RetainElements(attrs, used, b);
      assert Declares(b, key);
    }
  }

  lemma {:induction false} RemoveDeclThere(s: seq<Attr>, t: seq<Attr>, key: string)
    requires SomeDeclares(s, key)
    ensures RemoveDecl(s + t, key) == RemoveDecl(s, key) + t
  {
    SomeDeclaresSplit(s, key);
    hide SomeDeclares;
    assert (s + t)[0] == s[0] && (s + t)[1..] == s[1..] + t;
    if !Declares(s[0], key) {
      RemoveDeclThere(s[1..], t, key);
    }
  }

  lemma {:induction false} RemoveDeclAbsent(s: seq<Attr>, t: seq<Attr>, key: string)
    requires !SomeDeclares(s, key)
    ensures RemoveDecl(s + t, key) == s + RemoveDecl(t, key) && RemoveDecl(s, key) == s
  {
    if s == [] {
      assert [] + t == t;
    } else {
      assert (s + t)[0] == s[0] && (s + t)[1..] == s[1..] + t;
      SomeDeclaresSplit(s, key);
      RemoveDeclAbsent(s[1..], t, key);
    }
  }

  lemma RemoveDeclNext(a: Attr, rest: seq<Attr>, key: string)
    ensures RemoveDecl([a] + rest, key) == if Declares(a, key) then rest else [a] + RemoveDecl(rest, key)
  {
    assert ([a] + rest)[1..] == rest;
  }

  /** What is retained when one more attribute comes. */
  lemma {:induction false} RetainAppend(s: seq<Attr>, a: Attr, used: set<string>)
    ensures Retain(s + [a], used) ==
              if a.space != XMLNS_PREFIX then Retain(s, used) + [a]
              else if a.key !in used then Retain(s, used)
              else RemoveDecl(Retain(s, used), a.key) + [a]
  {
    if s == [] {
      assert [] + [a] == [a] && [a][1..] == [];
    } else {
      var rest := s[1..];
      assert (s + [a])[0] == s[0] && (s + [a])[1..] == rest + [a];
      RetainAppend(rest, a, used);
      AppendDeclares(rest, a);
      if Declares(s[0], s[0].key) && s[0].key !in Decls(rest) {
        NoneRetained(rest, used, s[0].key);
      }
    }
  }

  /** The prefixes that are declared when one more attribute comes. */
  lemma AppendDeclares(s: seq<Attr>, a: Attr)
    ensures forall key: Name :: key in Decls(s + [a]) <==> key in Decls(s) || Declares(a, key)
  {
    if IsDecl(a) {
      DeclsAppend(s, a);
    } else {
      DeclsAppendPlain(s, a);
    }
  }

  lemma NoneRetained(attrs: seq<Attr>, used: set<string>, key: Name)
    requires key !in Decls(attrs)
    ensures RemoveDecl(Retain(attrs, used), key) == Retain(attrs, used)
  {
    hide Retain, RemoveDecl, Decls;
    forall a | a in Retain(attrs, used) ensures !Declares(a, key) {
      RetainElements(attrs, used, a);
      if Declares(a, key) { DeclsHas(attrs, a); }
    }
    RemoveDeclAbsent(Retain(attrs, used), [], key);
  }

  /** The prefixes, other than the default one, of the element's own names. */
  method CollectOwn(space: string, attrs: seq<Attr>, ghost e: Node) returns (used: set<string>)
    requires e.Element? && e.space == space && e.attrs == attrs
    ensures used == OwnTracked(e)
  {
    used := if space != DEFAULT_PREFIX then {space} else {};
    for i := 0 to |attrs|
      invariant used == ({space} + (set a | a in attrs[..i] && !IsDecl(a) :: a.space)) - {DEFAULT_PREFIX}
    {
      assert attrs[..i + 1] == attrs[..i] + [attrs[i]];
      if attrs[i].space != DEFAULT_PREFIX && attrs[i].space != XMLNS_PREFIX {
        used := used + {attrs[i].space};
      }
    }
    assert attrs[..|attrs|] == attrs;
    assert OwnTracked(e) == ({space} + (set a | a in attrs && !IsDecl(a) :: a.space)) - {DEFAULT_PREFIX};
  }

  lemma DeclaredKeysAre(attrs: seq<Attr>, used: set<string>)
    requires DEFAULT_PREFIX !in used
    ensures used - Decls(attrs).Keys == used - DeclaredKeys(attrs)
  {
    forall p | p in used && p in Decls(attrs) ensures exists a :: a in attrs && a.space == XMLNS_PREFIX && a.key == p {
      var a := DeclsFrom(attrs, p);
    }
    forall a | a in attrs && a.space == XMLNS_PREFIX ensures a.key in Decls(attrs) {
      DeclsHas(attrs, a);
    }
  }

  /** `stripUnusedNamespaceDeclarations`. `env` is what the ancestors declare, which the code finds by
      walking up the tree. */
  method StripInPlace(el: ElementNode, env: Context) returns (used: set<string>)
    requires el.Valid()
    modifies el.repr
    ensures el.Valid() && el.repr == old(el.repr)
    ensures el.tree == StripUnused(env, old(el.tree)).node && used == StripUnused(env, old(el.tree)).used
    decreases el.repr, 2
  {
    ghost var e := el.tree;
    hide StripUnused, StripChildren, Retain, Forest;
    StripOfElement(env, e);
    var inner := env + Decls(el.attrs);
    used := CollectOwn(el.space, el.attrs, e);
    var below := StripChildrenInPlace(el, inner);
    used := used + below;
    TrackedNonDefault(inner, e);
    DeclaredKeysAre(e.attrs, used);
    var left, free := RemoveUnused(el.attrs, used);
    el.attrs := left;
    el.tree := el.tree.(attrs := left);
    used := free;
  }

  lemma StripOfElement(env: Context, e: Node)
    requires e.Element?
    ensures var (child, below) := StripChildren(env + Decls(e.attrs), e.child);
            && StripUnused(env, e).node == e.(attrs := Retain(e.attrs, OwnTracked(e) + below), child := child)
            && StripUnused(env, e).used == OwnTracked(e) + below - Decls(e.attrs).Keys
  {
  }

  lemma TrackedNonDefault(inner: Context, e: Node)
    requires e.Element?
    ensures DEFAULT_PREFIX !in OwnTracked(e) + StripChildren(inner, e.child).1
  {
    ReturnsFreeBelow(inner, e.child, DEFAULT_PREFIX);
  }

  /** What the loop over the children has gathered after the first `k` of `was`. */
  ghost function UsedAmong(inner: Context, was: seq<Node>, k: nat): set<string>
    requires k <= |was|
  {
    if k == 0 then {}
    else
      var last := was[k - 1];
      var used := if last.Element? && !IsSignature(inner, last) then StripUnused(inner, last).used else {};
      UsedAmong(inner, was, k - 1) + used
  }

  lemma {:induction false} StripChildrenElementwise(inner: Context, was: seq<Node>)
    ensures var (child, below) := StripChildren(inner, was);
            && |child| == |was| && below == UsedAmong(inner, was, |was|)
            && forall i :: 0 <= i < |was| ==>
                 child[i] == StrippedChild(inner, was[i])
  {
    hide StripUnused, IsSignature;
    if was != [] {
      StripChildrenElementwise(inner, was[1..]);
      UsedAmongShift(inner, was, |was|);
    }
  }

  lemma {:induction false} UsedAmongShift(inner: Context, was: seq<Node>, k: nat)
    requires 0 < k <= |was|
    ensures UsedAmong(inner, was, k) == UsedAmong(inner, was[1..], k - 1) +
      (if was[0].Element? && !IsSignature(inner, was[0]) then StripUnused(inner, was[0]).used else {})
  {
    hide StripUnused, IsSignature;
    if k > 1 {
      UsedAmongShift(inner, was, k - 1);
    }
  }

  ghost function StrippedChild(inner: Context, n: Node): Node {
    if n.Element? then StripUnused(inner, n).node else n
  }

  /** The state of the loop over the children `was` when the first `k` are stripped. */
  ghost predicate StrippedSoFar(inner: Context, was: seq<Node>, k: nat, trees: seq<Node>, below: set<string>)
    requires k <= |was|
  {
    && |trees| == |was|
    && (forall i :: k <= i < |was| ==> trees[i] == was[i])
    && (forall i :: 0 <= i < k ==> trees[i] == StrippedChild(inner, was[i]))
    && below == UsedAmong(inner, was, k)
  }

  method StripChildrenInPlace(el: ElementNode, inner: Context) returns (below: set<string>)
    requires el.Valid()
    modifies el.repr
    ensures el.Valid() && el.repr == old(el.repr) && unchanged(el`attrs)
    ensures el.tree == old(el.tree).(child := StripChildren(inner, old(el.tree.child)).0)
    ensures below == StripChildren(inner, old(el.tree.child)).1
    decreases el.repr, 1
  {
    ghost var trees := el.tree.child;
    ghost var was := trees;
    ghost var footprint := el.repr - {el};
    assert Forest(el.child, footprint, trees) && |trees| == |el.child|;
    ValidFields(el);
    hide StripUnused, StripChildren, StrippedSoFar, Forest, IsSignature, ElementNode.Valid;
    StripStart(inner, was);
    below := {};
    for k := 0 to |el.child|
      invariant unchanged(el)
      invariant Forest(el.child, footprint, trees) && |trees| == |was|
      invariant StrippedSoFar(inner, was, k, trees, below)
    {
      StripRest(inner, was, k, trees, below);
      ghost var now;
      var childUsed;
      childUsed, now := StripChild(el, footprint, trees, k, inner);
      StripNext(inner, was, k, trees, below, now, childUsed);
      below := below + childUsed;
      trees := trees[k := now];
    }
    StripEnd(inner, was, trees, below);
    el.tree := el.tree.(child := trees);
    MakeValid(el);
  }

  lemma StripStart(inner: Context, was: seq<Node>)
    ensures StrippedSoFar(inner, was, 0, was, {})
  {
  }

  lemma StripRest(inner: Context, was: seq<Node>, k: nat, trees: seq<Node>, below: set<string>)
    requires k < |was| && StrippedSoFar(inner, was, k, trees, below)
    ensures |trees| == |was| && trees[k] == was[k] && was[k] in was
  {
  }

  /** One round of the loop. */
  lemma StripNext(
      inner: Context, was: seq<Node>, k: nat, trees: seq<Node>, below: set<string>, now: Node, childUsed: set<string>)
    requires k < |was| && StrippedSoFar(inner, was, k, trees, below)
    requires now == StrippedChild(inner, was[k])
    requires childUsed == if was[k].Element? && !IsSignature(inner, was[k]) then StripUnused(inner, was[k]).used else {}
    ensures StrippedSoFar(inner, was, k + 1, trees[k := now], below + childUsed)
  {
    hide StripUnused, IsSignature;
  }

  lemma StripEnd(inner: Context, was: seq<Node>, trees: seq<Node>, below: set<string>)
    requires StrippedSoFar(inner, was, |was|, trees, below)
    ensures (trees, below) == StripChildren(inner, was)
  {
    hide StripUnused, StripChildren, StrippedChild, UsedAmong;
    StripChildrenElementwise(inner, was);
    assert trees == StripChildren(inner, was).0;
  }

  /** One child: whether it is a Signature is decided before it is changed. */
  method StripChild(el: ElementNode, ghost footprint: set<ElementNode>, ghost trees: seq<Node>, k: nat, inner: Context)
    returns (childUsed: set<string>, ghost now: Node)
    requires k < |el.child| && el !in footprint && footprint < el.repr && Forest(el.child, footprint, trees)
    requires |trees| == |el.child|
    modifies footprint
    ensures Forest(el.child, footprint, trees[k := now])
    ensures now == StrippedChild(inner, trees[k])
    ensures childUsed == if trees[k].Element? && !IsSignature(inner, trees[k]) then StripUnused(inner, trees[k]).used else {}
    decreases el.repr, 0
  {
    hide StripUnused, Forest, ElementNode.Valid;
    ForestAt(el.child, footprint, trees, k);
    now, childUsed := trees[k], {};
    if el.child[k].Child? {
      var c := el.child[k].el;
      ghost var reprs := Reprs(el.child);
      ForestParts(el.child, footprint, trees, k);
      ValidFields(c);
      var signature := c.tag == SIGNATURE_TAG && Lookup(inner + Decls(c.attrs), c.space) == Some(DSIG_NAMESPACE);
      childUsed := StripInPlace(c, inner);
      ForestUpdate(el.child, footprint, trees, k, reprs);
      now := c.tree;
      if signature {
        childUsed := {};
      }
    } else {
      assert trees[k := now] == trees;
    }
  }

  // ---------------------------------------------------------------- paths

  /** `path` leads from `root` to the very element `el`. */
  ghost predicate Reaches(root: ElementNode, path: seq<nat>, el: ElementNode)
    requires root.Valid()
    reads root, root.repr
    decreases path
  {
    if path == [] then root == el
    else
      && path[0] < |root.child| && root.child[path[0]].Child?
      && (assert Forest(root.child, root.repr - {root}, root.tree.child);
          ForestAt(root.child, root.repr - {root}, root.tree.child, path[0]);
          Reaches(root.child[path[0]].el, path[1..], el))
  }

  lemma {:induction false} ReachedInside(root: ElementNode, path: seq<nat>, el: ElementNode)
    requires root.Valid() && Reaches(root, path, el)
    ensures el in root.repr && (path != [] ==> el != root && ElementPath(root.tree, path))
    decreases path
  {
    if path != [] {
      assert Forest(root.child, root.repr - {root}, root.tree.child);
      ForestAt(root.child, root.repr - {root}, root.tree.child, path[0]);
      ReachedInside(root.child[path[0]].el, path[1..], el);
    }
  }

  /** An element is reached by one path only. */
  lemma {:induction false} OnePath(root: ElementNode, p: seq<nat>, q: seq<nat>, el: ElementNode)
    requires root.Valid() && Reaches(root, p, el) && Reaches(root, q, el)
    ensures p == q
    decreases p
  {
    if p == [] || q == [] {
      if p != [] { ReachedInside(root, p, el); }
      if q != [] { ReachedInside(root, q, el); }
    } else {
      var footprint := root.repr - {root};
      assert Forest(root.child, footprint, root.tree.child);
      ForestAt(root.child, footprint, root.tree.child, p[0]);
      ForestAt(root.child, footprint, root.tree.child, q[0]);
      ReachedInside(root.child[p[0]].el, p[1..], el);
      ReachedInside(root.child[q[0]].el, q[1..], el);
      ForestParts(root.child, footprint, root.tree.child, p[0]);
      OnePath(root.child[p[0]].el, p[1..], q[1..], el);
      assert p == [p[0]] + p[1..] && q == [q[0]] + q[1..];
    }
  }

  /** `mapPathToElement`: the one path to `el`, if it is below `tree`. */
  method MapPathToElement(tree: ElementNode, el: ElementNode) returns (path: Option<seq<nat>>)
    requires tree.Valid()
    ensures path.Some? ==> path.value != [] && Reaches(tree, path.value, el)
    ensures path.None? ==> forall p :: p != [] ==> !Reaches(tree, p, el)
    decreases tree.repr
  {
    ghost var footprint := tree.repr - {tree};
    assert Forest(tree.child, footprint, tree.tree.child);
    hide Forest, ElementNode.Valid;
    for i := 0 to |tree.child|
      invariant forall j :: 0 <= j < i ==> !(tree.child[j].Child? && tree.child[j].el == el)
    {
      if tree.child[i].Child? && tree.child[i].el == el {
        ForestAt(tree.child, footprint, tree.tree.child, i);
        assert Reaches(tree, [i], el);
        return Some([i]);
      }
    }
    for i := 0 to |tree.child|
      invariant forall p: seq<nat> :: p != [] && p[0] < i ==> !Reaches(tree, p, el)
    {
      if tree.child[i].Child? {
        ForestAt(tree.child, footprint, tree.tree.child, i);
        var childPath := MapPathToElement(tree.child[i].el, el);
        if childPath.Some? {
          assert ([i] + childPath.value)[1..] == childPath.value;
          return Some([i] + childPath.value);
        }
        forall p: seq<nat> | p != [] && p[0] == i ensures !Reaches(tree, p, el) {
          if p[1..] == [] {
            assert tree.child[i].el != el;
          }
        }
      }
    }
    path := None;
  }

  /** `removeElementAtPath`: exactly the element at the path goes. */
  method RemoveElementAtPath(el: ElementNode, path: seq<nat>) returns (ok: bool)
    requires el.Valid()
    modifies el.repr
    ensures el.Valid() && el.repr == old(el.repr)
    ensures ok <==> ElementPath(old(el.tree), path)
    ensures el.tree == if ok then RemoveAt(old(el.tree), path) else old(el.tree)
    decreases path
  {
    if |path| == 0 {
      return false;
    }
    ghost var footprint := el.repr - {el};
    ghost var trees := el.tree.child;
    assert Forest(el.child, footprint, trees) && |trees| == |el.child|;
    hide Forest;
    if |el.child| <= path[0] {
      return false;
    }
    ForestAt(el.child, footprint, trees, path[0]);
    if el.child[path[0]].Leaf? {
      return false;
    }
    var i := path[0];
    var c := el.child[i].el;
    if |path| == 1 {
      ForestCut(el.child, footprint, trees, i);
      el.child := el.child[..i] + el.child[i + 1..];
      el.tree := el.tree.(child := trees[..i] + trees[i + 1..]);
      return true;
    }
    ghost var reprs := Reprs(el.child);
    ForestParts(el.child, footprint, trees, i);
    ok := RemoveElementAtPath(c, path[1..]);
    ForestUpdate(el.child, footprint, trees, i, reprs);
    el.tree := el.tree.(child := trees[i := c.tree]);
    assert trees[i := trees[i]] == trees;
  }

  /** Any token can be dropped. */
  lemma ForestCut(child: seq<Token>, footprint: set<ElementNode>, trees: seq<Node>, c: nat)
    requires c < |child| && Forest(child, footprint, trees)
    ensures Forest(child[..c] + child[c + 1..], footprint, trees[..c] + trees[c + 1..])
  {
    hide ElementNode.Valid;
    var child', trees' := child[..c] + child[c + 1..], trees[..c] + trees[c + 1..];
    forall i | 0 <= i < |child'|
      ensures child'[i] == child[if i < c then i else i + 1] && trees'[i] == trees[if i < c then i else i + 1] {}
  }

  // ---------------------------------------------------------------- signatureValidationContext

  /** `FindElement` on a path of child steps: whether it finds something. */
  method FindChain(el: ElementNode, tags: seq<Name>) returns (found: bool)
    requires el.Valid() && tags != []
    ensures found == HasChain(el.tree.child, tags)
    decreases el.repr
  {
    hide ElementNode.Valid, Forest;
    ValidForest(el);
    ghost var trees := el.tree.child;
    ghost var footprint := el.repr - {el};
    for i := 0 to |el.child|
      invariant HasChain(trees, tags) == HasChain(trees[i..], tags)
    {
      ForestAt(el.child, footprint, trees, i);
      assert trees[i..][0] == trees[i] && trees[i..][1..] == trees[i + 1..];
      if el.child[i].Child? {
        var c := el.child[i].el;
        ValidFields(c);
        if c.tag == tags[0] {
          if |tags| == 1 {
            return true;
          }
          var below := FindChain(c, tags[1..]);
          if below {
            return true;
          }
        }
      }
    }
    found := false;
  }

  lemma ValidForest(el: ElementNode)
    requires el.Valid()
    ensures el in el.repr && el.tree.Element?
    ensures Forest(el.child, el.repr - {el}, el.tree.child) && |el.tree.child| == |el.child|
  {
  }

  /** `FindElement` on one child step: the place of what it finds. */
  method FindNamed(el: ElementNode, tag: Name) returns (found: Option<nat>)
    requires el.Valid()
    ensures found == FirstNamed(el.tree.child, tag)
  {
    hide ElementNode.Valid, Forest;
    ValidForest(el);
    ghost var trees := el.tree.child;
    for i := 0 to |el.child|
      invariant FirstNamed(trees, tag) == match FirstNamed(trees[i..], tag) case None => None case Some(k) => Some(i + k)
    {
      ForestAt(el.child, el.repr - {el}, trees, i);
      assert trees[i..][0] == trees[i] && trees[i..][1..] == trees[i + 1..];
      if el.child[i].Child? {
        ValidFields(el.child[i].el);
        if el.child[i].el.tag == tag {
          return Some(i);
        }
      }
    }
    found := None;
  }

  /** What `signatureValidationContext` does to the element before it detaches it. */
  method DropKeyInfoInPlace(el: ElementNode)
    requires el.Valid()
    modifies el.repr
    ensures el.Valid() && el.repr == old(el.repr) && el.tree == DropKeyInfo(old(el.tree))
  {
    hide ElementNode.Valid, Forest, HasChain, FirstNamed, RemoveAt;
    ValidForest(el);
    ValidFields(el);
    var certificate := FindChain(el, CERTIFICATE_STEPS);
    if certificate {
      return;
    }
    var signature := FindNamed(el, SIGNATURE_TAG);
    if signature.Some? {
      ForestAt(el.child, el.repr - {el}, el.tree.child, signature.value);
      var keyInfo := FindNamed(el.child[signature.value].el, KEY_INFO_TAG);
      if keyInfo.Some? {
        assert [signature.value, keyInfo.value][1..] == [keyInfo.value];
        var ok := RemoveElementAtPath(el, [signature.value, keyInfo.value]);
      }
    }
  }

  /** `Copy`: new elements in the same shape. */
  method Copy(el: ElementNode) returns (copy: ElementNode)
    requires el.Valid()
    ensures copy.Valid() && fresh(copy.repr) && copy.tree == el.tree
    decreases el.repr, 1
  {
    hide Forest, ElementNode.Valid;
    ValidFields(el);
    copy := new ElementNode(el.space, el.tag);
    var child;
    ghost var copies;
    child, copies := CopyChildren(el);
    copy.attrs := el.attrs;
    copy.child := child;
    copy.repr := {copy} + copies;
    copy.tree := el.tree;
    assert copy.repr - {copy} == copies;
    MakeValid(copy);
  }

  method CopyChildren(el: ElementNode) returns (child: seq<Token>, ghost copies: set<ElementNode>)
    requires el.Valid()
    ensures Forest(child, copies, el.tree.child) && fresh(copies)
    decreases el.repr, 0
  {
    ghost var footprint := el.repr - {el};
    assert Forest(el.child, footprint, el.tree.child);
    ValidFields(el);
    child, copies := [], {};
    hide Forest, ElementNode.Valid;
    EmptyForest();
    ForestLength(el.child, footprint, el.tree.child);
    for i := 0 to |el.child|
      invariant fresh(copies) && Forest(child, copies, el.tree.child[..i])
    {
      ForestAt(el.child, footprint, el.tree.child, i);
      ghost var trees := el.tree.child[..i];
      assert el.tree.child[..i + 1] == trees + [el.tree.child[i]];
      if el.child[i].Child? {
        var c := Copy(el.child[i].el);
        ForestAppend(child, copies, trees, c);
        child := child + [Child(c)];
        copies := copies + c.repr;
      } else {
        ForestAppendLeaf(child, copies, trees, el.child[i].node);
        child := child + [el.child[i]];
      }
    }
    assert el.tree.child[..|el.child|] == el.tree.child;
  }

  lemma EmptyForest()
    ensures Forest([], {}, [])
  {
  }

  lemma ForestLength(child: seq<Token>, footprint: set<ElementNode>, trees: seq<Node>)
    requires Forest(child, footprint, trees)
    ensures |trees| == |child|
  {
  }

  lemma ForestAppend(child: seq<Token>, footprint: set<ElementNode>, trees: seq<Node>, c: ElementNode)
    requires Forest(child, footprint, trees) && c.Valid() && c.repr !! footprint
    ensures Forest(child + [Child(c)], footprint + c.repr, trees + [c.tree])
  {
    ValidElement(c);
    hide ElementNode.Valid;
  }

  lemma ForestAppendLeaf(child: seq<Token>, footprint: set<ElementNode>, trees: seq<Node>, leaf: Node)
    requires Forest(child, footprint, trees) && !leaf.Element?
    ensures Forest(child + [Leaf(leaf)], footprint, trees + [leaf])
  {
    hide ElementNode.Valid;
  }

  /** The tree side of `transform` and the canonicalization that follows it, for an enveloped signature
      `sig` and exclusive canonicalization: the path is found in the original, and the element is
      removed from a copy. */
  method CanonicalWithout(root: ElementNode, sig: ElementNode)
    returns (found: Option<seq<nat>>, err: Option<NsError>, digested: ElementNode)
    requires root.Valid()
    ensures found.None? ==> forall p :: p != [] ==> !Reaches(root, p, sig)
    ensures found.Some? ==>
              && found.value != [] && Reaches(root, found.value, sig) && ElementPath(root.tree, found.value)
              && var spec := Verified(DEFAULT_CONTEXT, root.tree, found.value);
              && (err.None? ==>
                    && fresh(digested.repr) && digested.Valid() && spec.Ok? && Alike(digested.tree, spec.value)
                    && (TieFreeTree(RemoveAt(root.tree, found.value)) ==> digested.tree == spec.value))
              && (err.Some? ==> spec == Err(err.value))
  {
    found := MapPathToElement(root, sig);
    digested := Copy(root);
    err := None;
    if found.None? {
      return;
    }
    ReachedInside(root, found.value, sig);
    var ok := RemoveElementAtPath(digested, found.value);
    err := TransformExcC14n(digested, DEFAULT_CONTEXT, DEFAULT_CONTEXT, {}, false);
  }
}
