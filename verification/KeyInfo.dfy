/** The removal of a KeyInfo without a certificate: the step of `signatureValidationContext` in
    service_provider.go that changes an element before its signature is checked.

    Its path steps have no prefix, so they match an element of that local name in any namespace. */
module KeyInfo {
  import opened Wrappers
  import opened Xml
  import opened Views
  import opened Strip
  import opened Enveloped

  const KEY_INFO_TAG: Name := "KeyInfo"
  const CERTIFICATE_STEPS: seq<Name> := ["Signature", "KeyInfo", "X509Data", "X509Certificate"]

  predicate Named(n: Node, tag: Name) {
    n.Element? && n.tag == tag
  }

  /** Whether `FindElement` finds something on a path of child steps. */
  predicate HasChain(ns: seq<Node>, tags: seq<Name>)
    requires tags != []
    decreases ns
  {
    && ns != []
    && (|| (Named(ns[0], tags[0]) && (|tags| == 1 || HasChain(ns[0].child, tags[1..])))
        || HasChain(ns[1..], tags))
  }

  function FirstNamed(ns: seq<Node>, tag: Name): (r: Option<nat>)
    ensures r.Some? ==> r.value < |ns| && Named(ns[r.value], tag)
  {
    if ns == [] then None
    else if Named(ns[0], tag) then Some(0)
    else
      match FirstNamed(ns[1..], tag)
      case None => None
      case Some(i) => Some(i + 1)
  }

  /** Where the KeyInfo is that goes: the first one in the first child named Signature, and nothing if some
      Signature has a certificate. */
  function KeyInfoAt(e: Node): (r: Option<(nat, nat)>)
    requires e.Element?
    ensures r.Some? ==>
              && r.value.0 < |e.child| && Named(e.child[r.value.0], SIGNATURE_TAG)
              && r.value.1 < |e.child[r.value.0].child| && Named(e.child[r.value.0].child[r.value.1], KEY_INFO_TAG)
  {
    if HasChain(e.child, CERTIFICATE_STEPS) then None
    else
      match FirstNamed(e.child, SIGNATURE_TAG)
      case None => None
      case Some(i) =>
        match FirstNamed(e.child[i].child, KEY_INFO_TAG)
        case None => None
        case Some(k) => Some((i, k))
  }

  /** The element that goes to the signature check. */
  function DropKeyInfo(e: Node): (r: Node)
    requires e.Element?
    ensures r.Element? && r.space == e.space && r.tag == e.tag && r.attrs == e.attrs
  {
    match KeyInfoAt(e)
    case None => e
    case Some(at) => RemoveAt(e, [at.0, at.1])
  }

  /** A chain of elements with these names, reached by the path. */
  predicate ChainAt(ns: seq<Node>, tags: seq<Name>, path: seq<nat>)
    requires tags != [] && |path| == |tags|
    decreases path
  {
    && path[0] < |ns| && Named(ns[path[0]], tags[0])
    && (|tags| > 1 ==> ChainAt(ns[path[0]].child, tags[1..], path[1..]))
  }

  lemma {:induction false} HasChainAt(ns: seq<Node>, tags: seq<Name>) returns (path: seq<nat>)
    requires tags != [] && HasChain(ns, tags)
    ensures |path| == |tags| && ChainAt(ns, tags, path)
    decreases ns
  {
    if Named(ns[0], tags[0]) && (|tags| == 1 || HasChain(ns[0].child, tags[1..])) {
      var rest := [];
      if |tags| > 1 {
        rest := HasChainAt(ns[0].child, tags[1..]);
      }
      path := [0] + rest;
      assert path[1..] == rest;
    } else {
      path := HasChainAt(ns[1..], tags);
      path := path[0 := path[0] + 1];
    }
  }

  lemma {:induction false} ChainHas(ns: seq<Node>, tags: seq<Name>, path: seq<nat>)
    requires tags != [] && |path| == |tags| && ChainAt(ns, tags, path)
    ensures HasChain(ns, tags)
    decreases ns
  {
    if path[0] > 0 {
      var next := path[0 := path[0] - 1];
      assert next[1..] == path[1..];
      ChainHas(ns[1..], tags, next);
    } else if |tags| > 1 {
      ChainHas(ns[0].child, tags[1..], path[1..]);
    }
  }

  /** The search succeeds if and only if there is such a chain. */
  lemma SearchFindsChain(ns: seq<Node>, tags: seq<Name>)
    requires tags != []
    ensures HasChain(ns, tags) <==> exists path :: |path| == |tags| && ChainAt(ns, tags, path)
  {
    if HasChain(ns, tags) {
      var path := HasChainAt(ns, tags);
    }
    if path :| |path| == |tags| && ChainAt(ns, tags, path) {
      ChainHas(ns, tags, path);
    }
  }

  lemma {:induction false} FirstNamedIsFirst(ns: seq<Node>, tag: Name, i: nat)
    requires i < |ns| && Named(ns[i], tag)
    ensures FirstNamed(ns, tag).Some? && FirstNamed(ns, tag).value <= i
  {
    if i > 0 && !Named(ns[0], tag) {
      FirstNamedIsFirst(ns[1..], tag, i - 1);
    }
  }

  // ---------------------------------------------------------------- what goes with it

  function SubAt(n: Node, path: seq<nat>): (r: Node)
    requires ElementPath(n, path)
    ensures r.Element?
    decreases path
  {
    if |path| == 1 then n.child[path[0]] else SubAt(n.child[path[0]], path[1..])
  }

  /** How many nodes a view has. */
  function Weight(n: Node): nat
    decreases n, 1
  {
    match n
    case Element(_, _, _, child) => 1 + Weights(child)
    case Comment(_) => 0
    case _ => 1
  }

  function Weights(ns: seq<Node>): nat
    decreases ns, 0
  {
    if ns == [] then 0 else Weight(ns[0]) + Weights(ns[1..])
  }

  lemma {:induction false} WeightsConcat(ms: seq<Node>, ns: seq<Node>)
    ensures Weights(ms + ns) == Weights(ms) + Weights(ns)
  {
    if ms == [] {
      assert [] + ns == ns;
    } else {
      assert (ms + ns)[0] == ms[0] && (ms + ns)[1..] == ms[1..] + ns;
      WeightsConcat(ms[1..], ns);
    }
  }

  lemma WeightsSplit(ns: seq<Node>, i: nat)
    requires i < |ns|
    ensures Weights(ns) == Weights(ns[..i]) + Weight(ns[i]) + Weights(ns[i + 1..])
  {
    assert ns == ns[..i] + ns[i..] && ns[i..][0] == ns[i] && ns[i..][1..] == ns[i + 1..];
    WeightsConcat(ns[..i], ns[i..]);
  }

  lemma {:induction false} RemovalWeight(n: Node, path: seq<nat>)
    requires ElementPath(n, path)
    ensures Weight(RemoveAt(n, path)) == Weight(n) - Weight(SubAt(n, path))
    decreases path
  {
    var i := path[0];
    WeightsSplit(n.child, i);
    if |path| == 1 {
      WeightsConcat(n.child[..i], n.child[i + 1..]);
    } else {
      RemovalWeight(n.child[i], path[1..]);
      var child := n.child[i := RemoveAt(n.child[i], path[1..])];
      WeightsSplit(child, i);
      assert child[..i] == n.child[..i] && child[i + 1..] == n.child[i + 1..];
    }
  }

  /** A view, counted. */
  ghost function ViewWeight(v: View): nat
    decreases v, 1
  {
    match v
    case ViewElement(_, _, _, _, child) => 1 + ViewWeights(child)
    case ViewLeaf(leaf) => if leaf.Comment? then 0 else 1
  }

  ghost function ViewWeights(vs: seq<View>): nat
    decreases vs, 0
  {
    if vs == [] then 0 else ViewWeight(vs[0]) + ViewWeights(vs[1..])
  }

  lemma {:induction false} WeightInView(ctx: Context, n: Node)
    ensures ViewWeight(ViewOf(ctx, n, false)) == Weight(n)
    decreases n, 1
  {
    hide ViewAttrs, Decls;
    if n.Element? {
      WeightsInView(ctx + Decls(n.attrs), n.child);
    }
  }

  lemma {:induction false} WeightsInView(scope: Context, ns: seq<Node>)
    ensures ViewWeights(ViewsOf(scope, ns, false)) == Weights(ns)
    decreases ns, 0
  {
    if ns != [] {
      WeightInView(scope, ns[0]);
      WeightsInView(scope, ns[1..]);
      if !ns[0].Comment? {
        assert ViewsOf(scope, ns, false)[1..] == ViewsOf(scope, ns[1..], false);
      }
    }
  }

  // ---------------------------------------------------------------- paths before and after

  /** Where `path` led before the KeyInfo was removed. */
  function Lifted(e: Node, path: seq<nat>): seq<nat>
    requires e.Element?
  {
    match KeyInfoAt(e)
    case None => path
    case Some((i, k)) => if |path| > 1 && path[0] == i && path[1] >= k then path[1 := path[1] + 1] else path
  }

  /** The step removes nothing outside the element at `path`. */
  predicate DropsWithin(e: Node, path: seq<nat>)
    requires e.Element?
  {
    KeyInfoAt(e).None? || path == [KeyInfoAt(e).value.0]
  }

  lemma DropIsRemoval(e: Node, i: nat, k: nat)
    requires e.Element? && KeyInfoAt(e) == Some((i, k))
    ensures ElementPath(e, [i, k]) && DropKeyInfo(e) == RemoveAt(e, [i, k])
    ensures ElementPath(e.child[i], [k])
    ensures DropKeyInfo(e) == e.(child := e.child[i := RemoveAt(e.child[i], [k])])
    ensures RemoveAt(e.child[i], [k]) == e.child[i].(child := e.child[i].child[..k] + e.child[i].child[k + 1..])
  {
    hide KeyInfoAt;
    assert [i, k][1..] == [k];
  }

  /** A path to an element after the step is one before it, and leads to the same element, unless that is the
      one that has lost its KeyInfo. */
  lemma LiftedPath(e: Node, path: seq<nat>)
    requires e.Element? && ElementPath(DropKeyInfo(e), path)
    ensures ElementPath(e, Lifted(e, path))
    ensures DropsWithin(e, path) ==> Lifted(e, path) == path && RemoveAt(DropKeyInfo(e), path) == RemoveAt(e, path)
    ensures !DropsWithin(e, path) ==> SubAt(e, Lifted(e, path)) == SubAt(DropKeyInfo(e), path)
  {
    hide KeyInfoAt, HasChain;
    if KeyInfoAt(e).Some? {
      var (i, k) := KeyInfoAt(e).value;
      DropIsRemoval(e, i, k);
      var d := DropKeyInfo(e);
      if path == [i] {
        assert d.child[..i] == e.child[..i] && d.child[i + 1..] == e.child[i + 1..];
      } else if path[0] == i {
        LiftedInside(e.child[i], k, path[1..]);
        assert Lifted(e, path)[1..] == if path[1] >= k then path[1..][0 := path[1] + 1] else path[1..];
      } else {
        assert d.child[path[0]] == e.child[path[0]];
      }
    }
  }

  lemma LiftedInside(s: Node, k: nat, path: seq<nat>)
    requires ElementPath(s, [k]) && ElementPath(RemoveAt(s, [k]), path)
    ensures var lifted := if path[0] >= k then path[0 := path[0] + 1] else path;
            ElementPath(s, lifted) && SubAt(s, lifted) == SubAt(RemoveAt(s, [k]), path)
  {
    var t := RemoveAt(s, [k]);
    assert t.child == s.child[..k] + s.child[k + 1..];
    var j := if path[0] >= k then path[0] + 1 else path[0];
    assert t.child[path[0]] == s.child[j];
    assert path[0 := j][1..] == path[1..];
  }

  /** The step, and then the removal of the Signature, leave the view that the removal of the Signature alone
      leaves, if and only if the step removed nothing outside the Signature. */
  lemma DroppedView(ctx: Context, e: Node, path: seq<nat>)
    requires e.Element? && ElementPath(DropKeyInfo(e), path)
    ensures ElementPath(e, Lifted(e, path))
    ensures ViewOf(ctx, RemoveAt(DropKeyInfo(e), path), false) == ViewOf(ctx, RemoveAt(e, Lifted(e, path)), false)
       <==> DropsWithin(e, path)
  {
    hide ViewOf, ViewWeight, Weight, KeyInfoAt, Lifted, RemoveAt, SubAt;
    LiftedPath(e, path);
    if !DropsWithin(e, path) {
      var (i, k) := KeyInfoAt(e).value;
      DropIsRemoval(e, i, k);
      WeightInView(ctx, RemoveAt(DropKeyInfo(e), path));
      WeightInView(ctx, RemoveAt(e, Lifted(e, path)));
      RemovalWeight(DropKeyInfo(e), path);
      RemovalWeight(e, Lifted(e, path));
      RemovalWeight(e, [i, k]);
      ElementsWeigh(SubAt(e, [i, k]));
    }
  }

  lemma ElementsWeigh(n: Node)
    requires n.Element?
    ensures Weight(n) > 0
  {
  }

  /** What a caller can see: the removal stays within the Signature at place `j` if the first child named
      Signature is that one, or some Signature has a certificate, or there is no KeyInfo to remove. */
  lemma DropsWithinWhen(e: Node, j: nat)
    requires e.Element? && j < |e.child| && Named(e.child[j], SIGNATURE_TAG)
    ensures FirstNamed(e.child, SIGNATURE_TAG).Some?
    ensures DropsWithin(e, [j]) <==>
              || HasChain(e.child, CERTIFICATE_STEPS)
              || FirstNamed(e.child, SIGNATURE_TAG) == Some(j)
              || FirstNamed(e.child[FirstNamed(e.child, SIGNATURE_TAG).value].child, KEY_INFO_TAG).None?
  {
    hide HasChain;
    FirstNamedIsFirst(e.child, SIGNATURE_TAG, j);
  }

  const OTHER_SIGNATURE: Node :=
    Element("x", SIGNATURE_TAG, [DeclAttr("x", "u")], [Element("x", KEY_INFO_TAG, [], [])])
  const THE_SIGNATURE: Node := Element("ds", SIGNATURE_TAG, [DeclAttr("ds", DSIG_NAMESPACE)], [])
  const WITH_OTHER: Node := Element("", "a", [], [OTHER_SIGNATURE, THE_SIGNATURE])

  /** An input that loses an element outside its Signature: the first child named Signature is in another
      namespace, and there is no certificate. */
  lemma OtherLosesKeyInfo()
    ensures !IsSignature(DEFAULT_CONTEXT, OTHER_SIGNATURE) && IsSignature(DEFAULT_CONTEXT, THE_SIGNATURE)
    ensures KeyInfoAt(WITH_OTHER) == Some((0, 0)) && ElementPath(DropKeyInfo(WITH_OTHER), [1])
    ensures ViewOf(DEFAULT_CONTEXT, RemoveAt(DropKeyInfo(WITH_OTHER), [1]), false)
         != ViewOf(DEFAULT_CONTEXT, RemoveAt(WITH_OTHER, [1]), false)
  {
    assert Decls(OTHER_SIGNATURE.attrs) == map["x" := "u"] && Decls(THE_SIGNATURE.attrs) == map["ds" := DSIG_NAMESPACE] by {
      assert OTHER_SIGNATURE.attrs[1..] == [] && THE_SIGNATURE.attrs[1..] == [];
    }
    assert |DSIG_NAMESPACE| == 34 && |"u"| == 1;
    NoCertificate();
    assert KeyInfoAt(WITH_OTHER) == Some((0, 0));
    DropIsRemoval(WITH_OTHER, 0, 0);
    hide KeyInfoAt, ViewOf;
    DroppedView(DEFAULT_CONTEXT, WITH_OTHER, [1]);
    assert Lifted(WITH_OTHER, [1]) == [1];
  }

  lemma NoCertificate()
    ensures !HasChain(WITH_OTHER.child, CERTIFICATE_STEPS)
  {
    var inside := CERTIFICATE_STEPS[1..];
    assert inside[0] == KEY_INFO_TAG && |inside| == 3;
    assert !HasChain([], inside[1..]) && !HasChain([], inside) && !HasChain([], CERTIFICATE_STEPS);
    assert !HasChain(OTHER_SIGNATURE.child, inside) by {
      assert OTHER_SIGNATURE.child[1..] == [];
    }
    assert !HasChain([THE_SIGNATURE], CERTIFICATE_STEPS) by {
      assert [THE_SIGNATURE][1..] == [];
    }
    assert WITH_OTHER.child[1..] == [THE_SIGNATURE];
  }
}
