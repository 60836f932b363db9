/** The attribute order of internal/dsig/etreeutils/sort.go. */
module AttrOrder {
  import opened Wrappers
  import opened Xml

  // ---------------------------------------------------------------- strings

  /** Go's `<` on strings. */
  predicate StrLess(a: string, b: string) {
    b != [] && (a == [] || a[0] < b[0] || (a[0] == b[0] && StrLess(a[1..], b[1..])))
  }

  lemma {:induction false} StrLessTotal(a: string, b: string)
    ensures StrLess(a, b) || StrLess(b, a) || a == b
    ensures !(StrLess(a, b) && StrLess(b, a)) && !StrLess(a, a)
  {
    if a != [] && b != [] {
      StrLessTotal(a[1..], b[1..]);
      if a[0] == b[0] && a[1..] == b[1..] {
        assert a == [a[0]] + a[1..] == [b[0]] + b[1..] == b;
      }
    }
    StrLessIrreflexive(a);
  }

  lemma {:induction false} StrLessIrreflexive(a: string)
    ensures !StrLess(a, a)
  {
    if a != [] {
      StrLessIrreflexive(a[1..]);
    }
  }

  lemma {:induction false} StrLessTransitive(a: string, b: string, c: string)
    requires StrLess(a, b) && StrLess(b, c)
    ensures StrLess(a, c)
  {
    if a != [] && a[0] == b[0] == c[0] {
      StrLessTransitive(a[1..], b[1..], c[1..]);
    }
  }

  /** The strings are equal up to `k`, where `a` ends or has the smaller character. */
  predicate FirstDifference(a: string, b: string, k: nat) {
    k <= |a| && k < |b| && a[..k] == b[..k] && (k == |a| || a[k] < b[k])
  }

  ghost predicate ComesFirst(a: string, b: string) {
    exists k: nat :: FirstDifference(a, b, k)
  }

  /** One string is less than another if and only if it ends or has the smaller character where they first differ. */
  lemma {:induction false} LessAtFirstDifference(a: string, b: string)
    ensures StrLess(a, b) <==> ComesFirst(a, b)
    decreases |a|
  {
    if b != [] && (a == [] || a[0] < b[0]) {
      assert FirstDifference(a, b, 0);
    } else if a != [] && b != [] && a[0] == b[0] {
      LessAtFirstDifference(a[1..], b[1..]);
      if ComesFirst(a[1..], b[1..]) {
        var k: nat :| FirstDifference(a[1..], b[1..], k);
        DifferenceAfter(a, b, k);
      }
      if ComesFirst(a, b) {
        var k: nat :| FirstDifference(a, b, k);
        DifferenceAfter(a, b, k - 1);
      }
    } else if ComesFirst(a, b) {
      var k: nat :| FirstDifference(a, b, k);
      StartsAlike(a, b, k);
      assert false;
    }
  }

  lemma StartsAlike(a: string, b: string, k: nat)
    requires FirstDifference(a, b, k)
    ensures b != [] && (a == [] || a[0] <= b[0])
    ensures k > 0 ==> a != [] && a[0] == b[0]
  {
    if k > 0 {
      assert a[..k][0] == b[..k][0];
    }
  }

  lemma DifferenceAfter(a: string, b: string, k: nat)
    requires a != [] && b != [] && a[0] == b[0]
    ensures FirstDifference(a[1..], b[1..], k) <==> FirstDifference(a, b, k + 1)
  {
    if k < |a| && k < |b| {
      assert a[..k + 1] == [a[0]] + a[1..][..k] && b[..k + 1] == [b[0]] + b[1..][..k];
      assert a[1..][..k] == a[..k + 1][1..] && b[1..][..k] == b[..k + 1][1..];
    }
  }

  // ---------------------------------------------------------------- the intended order

  /** Default declaration, then prefix declarations, then unprefixed, then prefixed attributes. */
  function Rank(a: Attr): int {
    if a.space == DEFAULT_PREFIX && a.key == XMLNS_PREFIX then 0
    else if a.space == XMLNS_PREFIX then 1
    else if a.space == DEFAULT_PREFIX then 2
    else 3
  }

  /** A total order on attributes: by rank, then local name, with ties broken arbitrarily. */
  predicate AttrLess(a: Attr, b: Attr) {
    || Rank(a) < Rank(b)
    || (Rank(a) == Rank(b) &&
        (|| StrLess(a.key, b.key)
         || (a.key == b.key && (StrLess(a.space, b.space) || (a.space == b.space && StrLess(a.value, b.value))))))
  }

  lemma AttrLessTotal(a: Attr, b: Attr)
    ensures AttrLess(a, b) || AttrLess(b, a) || a == b
    ensures !(AttrLess(a, b) && AttrLess(b, a)) && !AttrLess(a, a)
  {
    StrLessTotal(a.key, b.key);
    StrLessTotal(a.space, b.space);
    StrLessTotal(a.value, b.value);
  }

  lemma AttrLessTransitive(a: Attr, b: Attr, c: Attr)
    requires AttrLess(a, b) && AttrLess(b, c)
    ensures AttrLess(a, c)
  {
    if Rank(a) == Rank(b) == Rank(c) {
      if StrLess(a.key, b.key) && StrLess(b.key, c.key) {
        StrLessTransitive(a.key, b.key, c.key);
      } else if a.key == b.key == c.key {
        if StrLess(a.space, b.space) && StrLess(b.space, c.space) {
          StrLessTransitive(a.space, b.space, c.space);
        } else if a.space == b.space == c.space {
          StrLessTransitive(a.value, b.value, c.value);
        }
      }
    }
  }

  ghost predicate Sorted(s: seq<Attr>) {
    forall i, j :: 0 <= i < j < |s| ==> AttrLess(s[i], s[j])
  }

  ghost predicate IsLeast(m: Attr, s: set<Attr>) {
    m in s && forall a :: a in s && a != m ==> AttrLess(m, a)
  }

  /** The elements of a finite set, in order. */
  ghost function Arrange(s: set<Attr>): (r: seq<Attr>)
    ensures Sorted(r) && (forall a :: a in r <==> a in s)
    decreases |s|
  {
    if s == {} then []
    else
      LeastExists(s);
      var m :| IsLeast(m, s);
      var rest := Arrange(s - {m});
      ConsSorted(m, rest, s);
      [m] + rest
  }

  lemma ConsSorted(m: Attr, rest: seq<Attr>, s: set<Attr>)
    requires Sorted(rest) && IsLeast(m, s) && (forall a :: a in rest <==> a in s - {m})
    ensures Sorted([m] + rest) && (forall a :: a in [m] + rest <==> a in s)
  {
    hide AttrLess;
    var r := [m] + rest;
    forall i, j | 0 <= i < j < |r| ensures AttrLess(r[i], r[j]) {
      assert r[j] == rest[j - 1] && rest[j - 1] in rest;
      if i > 0 { assert r[i] == rest[i - 1]; }
    }
  }

  lemma {:induction false} LeastExists(s: set<Attr>)
    requires s != {}
    ensures exists m :: IsLeast(m, s)
    decreases |s|
  {
    hide AttrLess;
    var x :| x in s;
    var t := s - {x};
    if t == {} {
      assert IsLeast(x, s) by { assert s == {x}; }
    } else {
      LeastExists(t);
      var m :| IsLeast(m, t);
      AttrLessTotal(m, x);
      if AttrLess(m, x) {
        assert IsLeast(m, s);
      } else {
        forall a | a in t && a != m ensures AttrLess(x, a) {
          AttrLessTransitive(x, m, a);
        }
        assert IsLeast(x, s);
      }
    }
  }

  /** A set of attributes has only one sorted arrangement. */
  lemma {:induction false} SortedUnique(s: seq<Attr>, t: seq<Attr>)
    requires Sorted(s) && Sorted(t) && forall a :: a in s <==> a in t
    ensures s == t
  {
    hide AttrLess;
    if s == [] {
      assert |t| == 0 by { assert forall i :: 0 <= i < |t| ==> t[i] in t; }
    } else {
      assert s[0] in t;
      HeadsAgree(s, t);
      TailHas(s, t);
      TailHas(t, s);
      SortedUnique(s[1..], t[1..]);
      assert s == [s[0]] + s[1..] && t == [t[0]] + t[1..];
    }
  }

  lemma HeadsAgree(s: seq<Attr>, t: seq<Attr>)
    requires s != [] && t != [] && Sorted(s) && Sorted(t) && forall a :: a in s <==> a in t
    ensures s[0] == t[0]
  {
    hide AttrLess;
    assert s[0] in t && t[0] in s;
    var i :| 0 <= i < |t| && t[i] == s[0];
    var j :| 0 <= j < |s| && s[j] == t[0];
    if i != 0 && j != 0 {
      AttrLessTotal(s[0], t[0]);
    }
  }

  lemma TailHas(s: seq<Attr>, t: seq<Attr>)
    requires s != [] && t != [] && Sorted(s) && s[0] == t[0] && forall a :: a in s ==> a in t
    ensures forall a :: a in s[1..] ==> a in t[1..]
  {
    hide AttrLess;
    forall a | a in s[1..] ensures a in t[1..] {
      AttrLessTotal(a, s[0]);
      var i :| 0 <= i < |s[1..]| && s[1..][i] == a;
      assert s[i + 1] == a && AttrLess(s[0], a);
      assert a in s && t == [t[0]] + t[1..];
    }
  }

  /** Sorting the elements of a sorted sequence changes nothing. */
  lemma ArrangeSorted(s: seq<Attr>, elems: set<Attr>)
    requires Sorted(s) && forall a :: a in s <==> a in elems
    ensures Arrange(elems) == s
  {
    SortedUnique(Arrange(elems), s);
  }

  // ---------------------------------------------------------------- the order the code computes

  /** The value of the last attribute whose local name is `name`, or "" if there is none. */
  function LastValue(a: seq<Attr>, name: string): string {
    if a == [] then ""
    else if a[|a| - 1].key == name then a[|a| - 1].value
    else LastValue(a[..|a| - 1], name)
  }

  /** `SortedAttrs.Less`, branch by branch. */
  predicate Less(a: seq<Attr>, i: nat, j: nat)
    requires i < |a| && j < |a|
  {
    if a[j].space == DEFAULT_PREFIX && a[j].key == XMLNS_PREFIX then false
    else if a[i].space == DEFAULT_PREFIX && a[i].key == XMLNS_PREFIX then true
    else if a[i].space == XMLNS_PREFIX then
      if a[j].space == XMLNS_PREFIX then StrLess(a[i].key, a[j].key) else true
    else if a[j].space == XMLNS_PREFIX then false
    else if a[i].space == DEFAULT_PREFIX then
      if a[j].space == DEFAULT_PREFIX then StrLess(a[i].key, a[j].key) else true
    else if a[j].space == DEFAULT_PREFIX then false
    else if a[i].space == a[j].space then StrLess(a[i].key, a[j].key)
    else if a[i].key == a[j].key then StrLess(LastValue(a, a[i].space), LastValue(a, a[j].space))
    else StrLess(a[i].key, a[j].key)
  }

  predicate Tied(x: Attr, y: Attr) {
    Rank(x) == Rank(y) && x.key == y.key
  }

  /** No two attributes which the order leaves to chance: no repeated attribute, and no two prefixed
      attributes with the same local name. */
  ghost predicate TieFree(a: seq<Attr>) {
    forall i, j :: 0 <= i < j < |a| ==> !Tied(a[i], a[j])
  }

  /** Without ties, the comparison the code makes is the intended order. */
  lemma LessIsAttrLess(a: seq<Attr>, i: nat, j: nat)
    requires i < |a| && j < |a| && i != j && TieFree(a)
    ensures Less(a, i, j) <==> AttrLess(a[i], a[j])
  {
    assert !Tied(a[i], a[j]) by {
      if i < j { assert !Tied(a[i], a[j]); } else { assert !Tied(a[j], a[i]); }
    }
  }

  /** By kind, then local name: what the comparison always respects, with ties or without. */
  predicate Before(x: Attr, y: Attr) {
    Rank(x) < Rank(y) || (Rank(x) == Rank(y) && StrLess(x.key, y.key))
  }

  ghost predicate WeaklySorted(s: seq<Attr>) {
    forall i, j :: 0 <= i < j < |s| ==> !Before(s[j], s[i])
  }

  lemma LessRespectsBefore(a: seq<Attr>, i: nat, j: nat)
    requires i < |a| && j < |a|
    ensures Less(a, i, j) ==> !Before(a[j], a[i])
    ensures !Less(a, i, j) ==> !Before(a[i], a[j])
  {
    hide StrLess, LastValue;
    StrLessTotal(a[i].key, a[j].key);
  }

  predicate IsDefaultDecl(a: Attr) {
    a.space == "" && a.key == "xmlns"
  }

  predicate IsPrefixDecl(a: Attr) {
    a.space == "xmlns"
  }

  predicate IsUnprefixed(a: Attr) {
    a.space == "" && a.key != "xmlns"
  }

  predicate IsPrefixed(a: Attr) {
    a.space != "" && a.space != "xmlns"
  }

  predicate SameKindOf(x: Attr, y: Attr) {
    (IsPrefixDecl(x) && IsPrefixDecl(y)) || (IsUnprefixed(x) && IsUnprefixed(y)) || (IsPrefixed(x) && IsPrefixed(y))
  }

  /** The default declaration goes first, then prefix declarations, then unprefixed attributes, then prefixed ones,
      and within a kind the local name that comes first as a text. */
  ghost predicate MustPrecede(x: Attr, y: Attr) {
    || (IsDefaultDecl(x) && !IsDefaultDecl(y))
    || (IsPrefixDecl(x) && (IsUnprefixed(y) || IsPrefixed(y)))
    || (IsUnprefixed(x) && IsPrefixed(y))
    || (SameKindOf(x, y) && ComesFirst(x.key, y.key))
  }

  ghost predicate InTextOrder(s: seq<Attr>) {
    forall i, j :: 0 <= i < j < |s| ==> !MustPrecede(s[j], s[i])
  }

  lemma BeforeIsMustPrecede(x: Attr, y: Attr)
    ensures Before(x, y) <==> MustPrecede(x, y)
  {
    hide StrLess, ComesFirst;
    LessAtFirstDifference(x.key, y.key);
    StrLessTotal(x.key, y.key);
  }

  /** The comparison: of different kinds the one that must precede goes first, and so it is for different local names.
      Prefixed attributes with the same local name go by the values taken for their prefixes, as texts. */
  lemma LessInText(a: seq<Attr>, i: nat, j: nat)
    requires i < |a| && j < |a|
    ensures Less(a, i, j) <==>
              || MustPrecede(a[i], a[j])
              || (&& IsPrefixed(a[i]) && IsPrefixed(a[j]) && a[i].space != a[j].space && a[i].key == a[j].key
                  && ComesFirst(LastValue(a, a[i].space), LastValue(a, a[j].space)))
  {
    hide StrLess, ComesFirst, LastValue;
    BeforeIsMustPrecede(a[i], a[j]);
    StrLessTotal(a[i].key, a[j].key);
    LessAtFirstDifference(LastValue(a, a[i].space), LastValue(a, a[j].space));
  }

  /** Two attributes of one kind come in this order if and only if their names are equal or the first one comes
      first as a text. */
  lemma NeverBoth(x: string, y: string)
    ensures !ComesFirst(y, x) <==> x == y || ComesFirst(x, y)
  {
    hide StrLess, ComesFirst;
    LessAtFirstDifference(x, y);
    LessAtFirstDifference(y, x);
    StrLessTotal(x, y);
  }

  lemma WeaklySortedInText(s: seq<Attr>)
    ensures WeaklySorted(s) <==> InTextOrder(s)
  {
    hide Before, MustPrecede;
    forall i, j | 0 <= i < j < |s| ensures Before(s[j], s[i]) <==> MustPrecede(s[j], s[i]) {
      BeforeIsMustPrecede(s[j], s[i]);
    }
  }

  lemma SortedInText(s: seq<Attr>)
    requires Sorted(s)
    ensures InTextOrder(s)
  {
    hide StrLess;
    forall i, j | 0 <= i < j < |s| ensures !Before(s[j], s[i]) {
      assert AttrLess(s[i], s[j]);
      StrLessTotal(s[i].key, s[j].key);
    }
    WeaklySortedInText(s);
  }

  lemma NotBeforeTransitive(x: Attr, y: Attr, z: Attr)
    requires !Before(y, x) && !Before(z, y)
    ensures !Before(z, x)
  {
    hide StrLess;
    StrLessTotal(x.key, y.key);
    StrLessTotal(y.key, z.key);
    if StrLess(z.key, x.key) {
      if StrLess(x.key, y.key) { StrLessTransitive(z.key, x.key, y.key); }
    }
  }

  /** Without ties there is only one such arrangement. */
  lemma WeaklySortedIsSorted(s: seq<Attr>)
    requires WeaklySorted(s) && TieFree(s)
    ensures Sorted(s)
  {
    hide StrLess;
    forall i, j | 0 <= i < j < |s| ensures AttrLess(s[i], s[j]) {
      assert !Before(s[j], s[i]) && !Tied(s[i], s[j]);
      StrLessTotal(s[i].key, s[j].key);
    }
  }

  // ---------------------------------------------------------------- against the standard

  /** The order of Canonical XML for prefixed attributes: by namespace, then local name. */
  predicate StandardLess(namespace: string -> string, x: Attr, y: Attr) {
    || StrLess(namespace(x.space), namespace(y.space))
    || (namespace(x.space) == namespace(y.space) && StrLess(x.key, y.key))
  }

  /** For prefixed attributes with different local names, the comparison of the code is the one of the
      standard if and only if their namespaces are equal or in the order of their local names. */
  lemma StandardOrder(namespace: string -> string, a: seq<Attr>, i: nat, j: nat)
    requires i < |a| && j < |a| && Rank(a[i]) == Rank(a[j]) == 3 && a[i].key != a[j].key
    ensures (Less(a, i, j) <==> StandardLess(namespace, a[i], a[j]))
       <==> (var m, n := namespace(a[i].space), namespace(a[j].space);
             m == n || (StrLess(m, n) <==> StrLess(a[i].key, a[j].key)))
  {
    hide StrLess, LastValue;
    StrLessTotal(namespace(a[i].space), namespace(a[j].space));
  }

  predicate Occurs(a: seq<Attr>, name: string) {
    exists x :: x in a && x.key == name
  }

  lemma {:induction false} LastValueOccurs(a: seq<Attr>, name: string)
    ensures if Occurs(a, name) then exists x :: x in a && x.key == name && x.value == LastValue(a, name)
            else LastValue(a, name) == ""
  {
    if a != [] {
      var last := |a| - 1;
      LastValueOccurs(a[..last], name);
      assert forall x :: x in a <==> x in a[..last] || x == a[last];
    }
  }

  /** The namespace of the prefix is the value of the last attribute that has the prefix as its local name, as when
      the element declares the prefix and no unprefixed or prefixed attribute has that local name. */
  predicate Shown(namespace: string -> string, a: seq<Attr>, prefix: string) {
    Occurs(a, prefix) && LastValue(a, prefix) == namespace(prefix)
  }

  /** For different prefixes with the same local name, it is the one of the standard if both are shown. If
      neither is the local name of an attribute, it is unless the standard puts the first one first. If only the
      first is shown, it is under the same condition, and if only the second is, it is if the standard puts the
      first one first or the second has the empty namespace. */
  lemma StandardOrderSameName(namespace: string -> string, a: seq<Attr>, i: nat, j: nat)
    requires i < |a| && j < |a| && Rank(a[i]) == Rank(a[j]) == 3 && a[i].key == a[j].key && a[i].space != a[j].space
    ensures var p, q := a[i].space, a[j].space;
            var agree := Less(a, i, j) <==> StandardLess(namespace, a[i], a[j]);
            && (Shown(namespace, a, p) && Shown(namespace, a, q) ==> agree)
            && (!Occurs(a, p) && !Occurs(a, q) ==> (agree <==> !StrLess(namespace(p), namespace(q))))
            && (Shown(namespace, a, p) && !Occurs(a, q) ==> (agree <==> !StrLess(namespace(p), namespace(q))))
            && (!Occurs(a, p) && Shown(namespace, a, q) ==>
                  (agree <==> namespace(q) == "" || StrLess(namespace(p), namespace(q))))
  {
    hide StrLess, LastValue, Occurs;
    StrLessTotal(a[i].key, a[j].key);
    LastValueOccurs(a, a[i].space);
    LastValueOccurs(a, a[j].space);
    EmptyFirst(LastValue(a, a[i].space));
    EmptyFirst(LastValue(a, a[j].space));
    EmptyFirst(namespace(a[i].space));
    EmptyFirst(namespace(a[j].space));
  }

  lemma EmptyFirst(v: string)
    ensures !StrLess(v, "") && (StrLess("", v) <==> v != "")
  {
  }

  /** An input where an unprefixed attribute hides a declaration: `p:k` goes before `q:k`, although the namespace of
      `q` goes before that of `p`. */
  lemma Hidden()
    ensures var a := [Attr(XMLNS_PREFIX, "p", "2"), Attr(XMLNS_PREFIX, "q", "1"), Attr("", "p", "0"),
                      Attr("p", "k", "3"), Attr("q", "k", "4")];
            var namespace := (prefix: string) => if prefix == "p" then "2" else "1";
            && Lookup(Decls(a), "p") == Some(namespace("p")) && Lookup(Decls(a), "q") == Some(namespace("q"))
            && Less(a, 3, 4) && StandardLess(namespace, a[4], a[3])
  {
    var a := [Attr(XMLNS_PREFIX, "p", "2"), Attr(XMLNS_PREFIX, "q", "1"), Attr("", "p", "0"),
              Attr("p", "k", "3"), Attr("q", "k", "4")];
    LastOf(a, "p", 2);
    LastOf(a, "q", 1);
    HiddenDecls();
  }

  lemma HiddenDecls()
    ensures Decls([Attr(XMLNS_PREFIX, "p", "2"), Attr(XMLNS_PREFIX, "q", "1"), Attr("", "p", "0"),
                   Attr("p", "k", "3"), Attr("q", "k", "4")]) == map["p" := "2", "q" := "1"]
  {
    var a := [Attr(XMLNS_PREFIX, "p", "2"), Attr(XMLNS_PREFIX, "q", "1"), Attr("", "p", "0"),
              Attr("p", "k", "3"), Attr("q", "k", "4")];
    DeclsAre(a, map["p" := "2", "q" := "1"]);
  }

  lemma {:induction false} LastOf(a: seq<Attr>, name: string, k: nat)
    requires k < |a| && a[k].key == name && forall i :: k < i < |a| ==> a[i].key != name
    ensures LastValue(a, name) == a[k].value
    decreases |a|
  {
    if k < |a| - 1 {
      LastOf(a[..|a| - 1], name, k);
    }
  }

  /** No prefix is declared twice. */
  ghost predicate DeclaresOnce(a: seq<Attr>) {
    forall i, j :: 0 <= i < j < |a| && IsDecl(a[i]) && IsDecl(a[j]) ==> DeclPrefix(a[i]) != DeclPrefix(a[j])
  }

  ghost predicate DeclaresOnceTree(n: Node) {
    n.Element? ==> DeclaresOnce(n.attrs) && forall c :: c in n.child ==> DeclaresOnceTree(c)
  }

  lemma TieFreeDeclaresOnce(a: seq<Attr>)
    requires TieFree(a)
    ensures DeclaresOnce(a)
  {
    forall i, j | 0 <= i < j < |a| && IsDecl(a[i]) && IsDecl(a[j]) ensures DeclPrefix(a[i]) != DeclPrefix(a[j]) {
      assert !Tied(a[i], a[j]);
    }
  }

  lemma {:induction false} TieFreeTreeDeclaresOnce(n: Node)
    requires TieFreeTree(n)
    ensures DeclaresOnceTree(n)
  {
    if n.Element? {
      TieFreeDeclaresOnce(n.attrs);
      forall c | c in n.child ensures DeclaresOnceTree(c) {
        TieFreeTreeDeclaresOnce(c);
      }
    }
  }

  ghost predicate TieFreeTree(n: Node) {
    n.Element? ==> TieFree(n.attrs) && forall c :: c in n.child ==> TieFreeTree(c)
  }

  lemma SameElements(s: seq<Attr>, t: seq<Attr>)
    requires multiset(s) == multiset(t)
    ensures forall a :: a in s <==> a in t
  {
    forall a ensures a in s <==> a in t {
      assert a in multiset(s) <==> a in multiset(t);
    }
  }

  function Swap(a: seq<Attr>, i: nat, j: nat): (b: seq<Attr>)
    requires i < |a| && j < |a|
    ensures multiset(b) == multiset(a)
  {
    a[i := a[j]][j := a[i]]
  }

  lemma SwapTieFree(a: seq<Attr>, j: nat)
    requires 0 < j < |a| && TieFree(a)
    ensures TieFree(Swap(a, j, j - 1))
  {
    var b := Swap(a, j, j - 1);
    forall x, y | 0 <= x < y < |b| ensures !Tied(b[x], b[y]) {
      var x' := if x == j then j - 1 else if x == j - 1 then j else x;
      var y' := if y == j then j - 1 else if y == j - 1 then j else y;
      assert b[x] == a[x'] && b[y] == a[y'] && x' != y';
      if x' < y' { assert !Tied(a[x'], a[y']); } else { assert !Tied(a[y'], a[x']); }
    }
  }

  lemma SwapDeclaresOnce(a: seq<Attr>, j: nat)
    requires 0 < j < |a| && DeclaresOnce(a)
    ensures DeclaresOnce(Swap(a, j, j - 1))
  {
    hide IsDecl, DeclPrefix;
    var b := Swap(a, j, j - 1);
    forall x, y | 0 <= x < y < |b| && IsDecl(b[x]) && IsDecl(b[y]) ensures DeclPrefix(b[x]) != DeclPrefix(b[y]) {
      var x' := if x == j then j - 1 else if x == j - 1 then j else x;
      var y' := if y == j then j - 1 else if y == j - 1 then j else y;
      assert b[x] == a[x'] && b[y] == a[y'] && x' != y';
    }
  }

  /** What does not depend on the order. */
  ghost predicate SameKind(a: seq<Attr>, b: seq<Attr>) {
    && |a| == |b| && multiset(a) == multiset(b)
    && (TieFree(a) ==> TieFree(b)) && (DeclaresOnce(a) ==> DeclaresOnce(b))
  }

  lemma SwapSameKind(a: seq<Attr>, s: seq<Attr>, j: nat)
    requires 0 < j < |s| && SameKind(a, s)
    ensures SameKind(a, Swap(s, j, j - 1))
  {
    hide TieFree, DeclaresOnce;
    if TieFree(a) {
      SwapTieFree(s, j);
    }
    if DeclaresOnce(a) {
      SwapDeclaresOnce(s, j);
    }
  }

  /** Two prefixed attributes with the same local name but different prefixes. */
  predicate Rivals(x: Attr, y: Attr) {
    Rank(x) == Rank(y) == 3 && x.key == y.key && x.space != y.space
  }

  /** The prefix of an attribute that has a rival is not the local name of attributes with different values, so that
      it does not matter which of them is last. */
  ghost predicate Clear(a: seq<Attr>) {
    forall x, y :: x in a && y in a && Rivals(x, y) ==> OneValue(a, x.space)
  }

  ghost predicate OneValue(a: seq<Attr>, name: string) {
    forall x, y :: x in a && y in a && x.key == y.key == name ==> x.value == y.value
  }

  /** What the comparison says in any order of `a`. */
  ghost predicate Precedes(a: seq<Attr>, x: Attr, y: Attr) {
    || Before(x, y)
    || (Clear(a) && Rivals(x, y) && StrLess(LastValue(a, x.space), LastValue(a, y.space)))
  }

  ghost predicate Arranged(a: seq<Attr>, s: seq<Attr>) {
    multiset(s) == multiset(a) && forall i, j :: 0 <= i < j < |s| ==> !Precedes(a, s[j], s[i])
  }

  lemma SameLastValue(a: seq<Attr>, s: seq<Attr>, name: string)
    requires multiset(a) == multiset(s) && OneValue(a, name)
    ensures LastValue(s, name) == LastValue(a, name)
  {
    SameElements(a, s);
    LastValueOccurs(a, name);
    LastValueOccurs(s, name);
  }

  lemma LessPrecedes(a: seq<Attr>, s: seq<Attr>, i: nat, j: nat)
    requires multiset(a) == multiset(s) && i < |s| && j < |s|
    ensures Less(s, i, j) ==> !Precedes(a, s[j], s[i])
    ensures !Less(s, i, j) ==> !Precedes(a, s[i], s[j])
  {
    hide StrLess, LastValue, OneValue;
    LessRespectsBefore(s, i, j);
    StrLessTotal(s[i].key, s[j].key);
    if Clear(a) && Rivals(s[i], s[j]) {
      SameElements(a, s);
      assert s[i] in a && s[j] in a && Rivals(s[j], s[i]);
      SameLastValue(a, s, s[i].space);
      SameLastValue(a, s, s[j].space);
      StrLessTotal(LastValue(a, s[i].space), LastValue(a, s[j].space));
    }
  }

  lemma NotPrecedesTransitive(a: seq<Attr>, x: Attr, y: Attr, z: Attr)
    requires !Precedes(a, y, x) && !Precedes(a, z, y)
    ensures !Precedes(a, z, x)
  {
    hide StrLess, LastValue, Clear;
    NotBeforeTransitive(x, y, z);
    if Clear(a) && Rivals(z, x) && StrLess(LastValue(a, z.space), LastValue(a, x.space)) {
      var u, v, w := LastValue(a, x.space), LastValue(a, y.space), LastValue(a, z.space);
      BetweenRivals(x, y, z);
      StrLessTotal(u, v);
      StrLessTotal(v, w);
      StrLessTotal(u, w);
      if StrLess(u, v) && StrLess(v, w) { StrLessTransitive(u, v, w); }
    }
  }

  lemma BetweenRivals(x: Attr, y: Attr, z: Attr)
    requires Rivals(z, x) && !Before(y, x) && !Before(z, y)
    ensures Rank(y) == 3 && y.key == x.key
  {
    hide StrLess;
    StrLessTotal(x.key, y.key);
  }

  /** Nothing that the comparison would move. */
  ghost predicate InOrder(a: seq<Attr>) {
    forall j, k :: 0 <= j < k < |a| && k == j + 1 ==> !Less(a, k, j)
  }

  /** `sort.Sort(SortedAttrs(attrs))`, as the insertion that the Go library uses on short slices.
      Only the comparison and the swap are the repository's. */
  method SortAttrs(attrs: seq<Attr>) returns (s: seq<Attr>)
    ensures multiset(s) == multiset(attrs) && WeaklySorted(s) && Arranged(attrs, s)
    ensures InTextOrder(s) && (Clear(attrs) ==> RivalsInText(attrs, s))
    ensures DeclaresOnce(attrs) ==> DeclaresOnce(s)
    ensures TieFree(attrs) ==> TieFree(s) && Sorted(s)
    ensures InOrder(attrs) ==> s == attrs
  {
    hide TieFree, DeclaresOnce, Less, Inserting, InTextOrder, RivalsInText, Clear;
    s := attrs;
    var i := 1;
    InsertingStart(attrs);
    while i < |s|
      invariant 1 <= i && |s| == |attrs|
      invariant Inserting(attrs, s, i - 1, 0)
    {
      var j := i;
      InsertingNext(attrs, s, i);
      while j > 0 && Less(s, j, j - 1)
        invariant 0 <= j <= i < |s| == |attrs|
        invariant Inserting(attrs, s, i, j)
      {
        InsertingSwap(attrs, s, i, j);
        s := Swap(s, j, j - 1);
        j := j - 1;
      }
      InsertingDone(attrs, s, i, j);
      i := i + 1;
    }
    InsertingMeans(attrs, s, i - 1);
    ArrangedIsSorted(attrs, s);
    WeaklySortedInText(s);
    ArrangedInText(attrs, s);
    if TieFree(attrs) {
      WeaklySortedIsSorted(s);
    }
  }

  /** Prefixed attributes with the same local name are in the order of the values taken for their prefixes. */
  ghost predicate RivalsInText(a: seq<Attr>, s: seq<Attr>) {
    forall i, j :: 0 <= i < j < |s| && IsPrefixed(s[i]) && IsPrefixed(s[j]) && s[i].key == s[j].key ==>
      !ComesFirst(LastValue(a, s[j].space), LastValue(a, s[i].space))
  }

  lemma ArrangedInText(a: seq<Attr>, s: seq<Attr>)
    requires Arranged(a, s)
    ensures Clear(a) ==> RivalsInText(a, s)
  {
    hide StrLess, ComesFirst, LastValue, Clear, Before;
    if Clear(a) {
      forall i, j | 0 <= i < j < |s| && IsPrefixed(s[i]) && IsPrefixed(s[j]) && s[i].key == s[j].key
        ensures !ComesFirst(LastValue(a, s[j].space), LastValue(a, s[i].space))
      {
        assert !Precedes(a, s[j], s[i]);
        LessAtFirstDifference(LastValue(a, s[j].space), LastValue(a, s[i].space));
        StrLessTotal(LastValue(a, s[j].space), LastValue(a, s[i].space));
      }
    }
  }

  /** The state of the insertion: `s[..i + 1]` is arranged but for `s[j]`, which nothing that is after it precedes. */
  ghost predicate Inserting(a: seq<Attr>, s: seq<Attr>, i: nat, j: nat) {
    && SameKind(a, s) && (InOrder(a) ==> s == a)
    && forall x, y :: 0 <= x < y <= i && y < |s| && y != j ==> !Precedes(a, s[y], s[x])
  }

  lemma InsertingStart(a: seq<Attr>)
    ensures Inserting(a, a, 0, 0)
  {
    hide Precedes;
  }

  lemma InsertingNext(a: seq<Attr>, s: seq<Attr>, i: nat)
    requires 0 < i && Inserting(a, s, i - 1, 0)
    ensures Inserting(a, s, i, i)
  {
    hide Precedes, SameKind, InOrder;
  }

  /** One exchange. */
  lemma InsertingSwap(a: seq<Attr>, s: seq<Attr>, i: nat, j: nat)
    requires 0 < j <= i < |s| && Inserting(a, s, i, j) && Less(s, j, j - 1)
    ensures Inserting(a, Swap(s, j, j - 1), i, j - 1)
  {
    hide Precedes, Less;
    LessPrecedes(a, s, j, j - 1);
    SwapSameKind(a, s, j);
    assert !InOrder(a) by {
      var k := j - 1;
      assert k < j && Less(s, j, k);
    }
  }

  lemma InsertingDone(a: seq<Attr>, s: seq<Attr>, i: nat, j: nat)
    requires j <= i < |s| && Inserting(a, s, i, j) && (j > 0 ==> !Less(s, j, j - 1))
    ensures Inserting(a, s, i, 0)
  {
    hide Precedes, Less, InOrder;
    if j > 0 {
      LessPrecedes(a, s, j, j - 1);
      forall x | 0 <= x < j ensures !Precedes(a, s[j], s[x]) {
        if x < j - 1 {
          NotPrecedesTransitive(a, s[x], s[j - 1], s[j]);
        }
      }
    }
  }

  lemma InsertingMeans(a: seq<Attr>, s: seq<Attr>, i: nat)
    requires Inserting(a, s, i, 0) && i + 1 >= |s|
    ensures Arranged(a, s) && (InOrder(a) ==> s == a)
    ensures (TieFree(a) ==> TieFree(s)) && (DeclaresOnce(a) ==> DeclaresOnce(s))
  {
    hide Precedes, InOrder, TieFree, DeclaresOnce;
  }

  lemma ArrangedIsSorted(a: seq<Attr>, s: seq<Attr>)
    requires Arranged(a, s)
    ensures WeaklySorted(s)
  {
    hide Before, Clear, Rivals;
    forall i, j | 0 <= i < j < |s| ensures !Before(s[j], s[i]) {
      assert !Precedes(a, s[j], s[i]);
    }
  }

  // ---------------------------------------------------------------- the sorted list against the standard

  /** The order of Canonical XML for all attributes. */
  predicate StandardBefore(namespace: string -> string, x: Attr, y: Attr) {
    Rank(x) < Rank(y) || (Rank(x) == Rank(y) && if Rank(x) == 3 then StandardLess(namespace, x, y) else StrLess(x.key, y.key))
  }

  ghost predicate StandardSorted(namespace: string -> string, s: seq<Attr>) {
    forall i, j :: 0 <= i < j < |s| ==> !StandardBefore(namespace, s[j], s[i])
  }

  /** No two prefixed attributes have their local names in one order and their namespaces in the other. */
  ghost predicate NamesFollowNamespaces(namespace: string -> string, a: seq<Attr>) {
    forall x, y :: x in a && y in a && Rank(x) == Rank(y) == 3 && StrLess(x.key, y.key) ==>
      !StrLess(namespace(y.space), namespace(x.space))
  }

  /** The prefixes of rivals are shown, as when the element itself declares them. */
  ghost predicate RivalsShown(namespace: string -> string, a: seq<Attr>) {
    forall x, y :: x in a && y in a && Rivals(x, y) ==> Shown(namespace, a, x.space)
  }

  /** What the sort comes to is in the order of the standard if and only if the order of local names never goes
      against that of namespaces. Where attributes have the same local name, their prefixes have to be shown,
      without doubt. */
  lemma SortedByStandard(namespace: string -> string, a: seq<Attr>, s: seq<Attr>)
    requires Arranged(a, s) && Clear(a) && RivalsShown(namespace, a)
    ensures StandardSorted(namespace, s) <==> NamesFollowNamespaces(namespace, a)
  {
    hide StrLess, LastValue, Precedes, Clear, StandardBefore, Occurs;
    SameElements(s, a);
    if NamesFollowNamespaces(namespace, a) {
      forall i, j | 0 <= i < j < |s| ensures !StandardBefore(namespace, s[j], s[i]) {
        assert !Precedes(a, s[j], s[i]);
        assert s[i] in a && s[j] in a;
        PrecedesStandard(namespace, a, s[j], s[i]);
      }
    }
    if StandardSorted(namespace, s) {
      forall x, y | x in a && y in a && Rank(x) == Rank(y) == 3 && StrLess(x.key, y.key)
        ensures !StrLess(namespace(y.space), namespace(x.space))
      {
        var i :| 0 <= i < |s| && s[i] == x;
        var j :| 0 <= j < |s| && s[j] == y;
        NameFirst(namespace, a, s, i, j);
      }
    }
  }

  lemma NameFirst(namespace: string -> string, a: seq<Attr>, s: seq<Attr>, i: nat, j: nat)
    requires Arranged(a, s) && i < |s| && j < |s| && StandardSorted(namespace, s)
    requires Rank(s[i]) == Rank(s[j]) == 3 && StrLess(s[i].key, s[j].key)
    ensures !StrLess(namespace(s[j].space), namespace(s[i].space))
  {
    hide StrLess, Clear, Rivals;
    StrLessTotal(s[i].key, s[j].key);
    assert Precedes(a, s[i], s[j]);
    assert !StandardBefore(namespace, s[j], s[i]);
  }

  /** Of two attributes that the code leaves in this order, the standard does not put the second one first. */
  lemma PrecedesStandard(namespace: string -> string, a: seq<Attr>, y: Attr, x: Attr)
    requires x in a && y in a && Clear(a) && RivalsShown(namespace, a) && NamesFollowNamespaces(namespace, a)
    requires !Precedes(a, y, x)
    ensures !StandardBefore(namespace, y, x)
  {
    hide StrLess, LastValue, Clear, Occurs;
    StrLessTotal(x.key, y.key);
    if Rivals(x, y) {
      assert Rivals(y, x);
    } else if Rank(x) == Rank(y) == 3 && x.key == y.key {
      StrLessTotal(namespace(x.space), namespace(x.space));
    } else if Rank(x) == Rank(y) == 3 && StrLess(x.key, y.key) {
      assert !StrLess(namespace(y.space), namespace(x.space));
    }
  }

  /** A prefix is shown without doubt if the element declares it, once, and it is the local name of nothing else. */
  lemma DeclaredIsShown(namespace: string -> string, a: seq<Attr>, prefix: string)
    requires prefix != DEFAULT_PREFIX && prefix in Decls(a) && DeclaresOnce(a) && namespace(prefix) == Decls(a)[prefix]
    requires forall x :: x in a && x.key == prefix ==> x.space == XMLNS_PREFIX
    ensures Shown(namespace, a, prefix) && OneValue(a, prefix)
  {
    hide LastValue;
    var d := DeclsFrom(a, prefix);
    forall x | x in a && x.key == prefix ensures x == d {
      var i :| 0 <= i < |a| && a[i] == x;
      var j :| 0 <= j < |a| && a[j] == d;
      assert DeclPrefix(a[i]) == DeclPrefix(a[j]);
      assert i == j;
    }
    LastValueOccurs(a, prefix);
  }

  /** Without ties there is nothing to show. */
  lemma TieFreeClear(namespace: string -> string, a: seq<Attr>)
    requires TieFree(a)
    ensures Clear(a) && RivalsShown(namespace, a)
  {
    hide Shown, OneValue;
    forall x, y | x in a && y in a ensures !Rivals(x, y) {
      var i :| 0 <= i < |a| && a[i] == x;
      var j :| 0 <= j < |a| && a[j] == y;
      if i < j { assert !Tied(a[i], a[j]); } else if j < i { assert !Tied(a[j], a[i]); }
    }
  }

  // ---------------------------------------------------------------- trees but for the order of attributes

  /** The same but for the order of attributes, which goes by kind and local name where it is another. */
  ghost predicate Alike(m: Node, n: Node)
    decreases m, 1
  {
    if m.Element? && n.Element? then
      && m.space == n.space && m.tag == n.tag
      && (forall a :: a in m.attrs <==> a in n.attrs) && (m.attrs == n.attrs || InTextOrder(m.attrs))
      && AllAlike(m.child, n.child)
    else m == n
  }

  ghost predicate AllAlike(ms: seq<Node>, ns: seq<Node>)
    decreases ms, 0
  {
    && |ms| == |ns|
    && (ms != [] ==> Alike(ms[0], ns[0]) && AllAlike(ms[1..], ns[1..]))
  }

  lemma {:induction false} AllAlikeElementwise(ms: seq<Node>, ns: seq<Node>)
    requires |ms| == |ns| && forall i :: 0 <= i < |ms| ==> Alike(ms[i], ns[i])
    ensures AllAlike(ms, ns)
  {
    if ms != [] {
      AllAlikeElementwise(ms[1..], ns[1..]);
    }
  }

  lemma AlikeElement(m: Node, n: Node)
    requires m.Element? && n.Element? && m.space == n.space && m.tag == n.tag
    requires (forall a :: a in m.attrs <==> a in n.attrs) && InTextOrder(m.attrs) && AllAlike(m.child, n.child)
    ensures Alike(m, n)
  {
  }
}
