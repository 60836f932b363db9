/** What the content is that a service provider reads an accepted assertion from: the pipeline of
    service_provider.go, with the tree side of `Validate` in internal/dsig/validate.go. */
module Provenance {
  import opened Wrappers
  import opened Xml
  import opened Views
  import opened ExcC14n
  import opened Relocate
  import opened Strip
  import opened Enveloped
  import opened KeyInfo
  import opened Search
  import opened Acceptance
  import opened Pipeline

  function Steps(path: seq<nat>): seq<Move> {
    seq(|path|, i requires 0 <= i < |path| => ToChild(path[i]))
  }

  /** The path leads from the element to a Signature. */
  predicate SignatureAt(p: Provider, x: Located, path: seq<nat>) {
    var s := Follow(p, x, Steps(path));
    && s.Some? && s.value.el.Element? && s.value.el.tag == SIGNATURE_TAG
    && Lookup(s.value.ctx + Decls(s.value.el.attrs), s.value.el.space) == Some(DSIG_NAMESPACE)
  }

  /** `v` is what remains of the detached element, in exclusive canonical form, when the search has come to the
      Signature at the path and that is removed. The Signature chooses the prefix list. */
  ghost predicate SignedContent(p: Provider, x: Located, path: seq<nat>, inclusive: set<string>, v: Node) {
    && x.el.Element? && SignatureAt(p, x, path) && Detach(x.ctx, x.el).Ok?
    && exists found :: SignedIn(Detach(x.ctx, x.el).value, found, path, inclusive, v)
  }

  ghost predicate SignedIn(d: Node, found: Node, path: seq<nat>, inclusive: set<string>, v: Node) {
    && SearchedUpTo(DEFAULT_CONTEXT, d, found, path) && ElementPath(found, path)
    && Exc(DEFAULT_CONTEXT, DEFAULT_CONTEXT, RemoveAt(found, path), inclusive, false) == Ok(v)
  }

  /** `Validate` returns the content that a Signature covers: `Etree.TransformExcC14n` and
      `EtreeEdit.CanonicalWithout` are how it comes about. */
  ghost predicate ReturnsSigned(p: Provider) {
    forall x, v :: p.validate(x) == Some(v) ==> exists path, inclusive :: SignedContent(p, x, path, inclusive, v)
  }

  /** `v` is canonical, and its view is that of `x` in its document, less the Signature at the path. */
  ghost predicate LessSignature(p: Provider, x: Located, path: seq<nat>, inclusive: set<string>, v: Node) {
    && SignatureAt(p, x, path) && ElementPath(x.el, path)
    && Canonical(DEFAULT_CONTEXT, v, inclusive, false)
    && ViewPathOk(ViewOf(x.ctx, x.el, false), ViewPath(x.el, path))
    && ViewOf(DEFAULT_CONTEXT, v, false) == ViewRemoveAt(ViewOf(x.ctx, x.el, false), ViewPath(x.el, path))
  }

  lemma ContentLessSignature(p: Provider, x: Located, path: seq<nat>, inclusive: set<string>, v: Node)
    requires GoodContext(x.ctx) && SignedContent(p, x, path, inclusive, v)
    ensures LessSignature(p, x, path, inclusive, v)
  {
    var d := Detach(x.ctx, x.el).value;
    var found :| SignedIn(d, found, path, inclusive, v);
    hide SignatureAt, Exc, Canonical, Detach, ViewOf, RemoveAt, ViewRemoveAt, ViewPath, ViewPathOk, GoodContext, SearchedUpTo;
    var rest := RemoveAt(found, path);
    DefaultIsGood();
    SearchedRemoval(DEFAULT_CONTEXT, d, found, path);
    DetachKeepsView(x.ctx, x.el, false);
    DetachKeepsChildren(x.ctx, x.el);
    SamePath(d, x.el, path);
    RemovalInView(DEFAULT_CONTEXT, d, path);
    KeepsView(DEFAULT_CONTEXT, DEFAULT_CONTEXT, rest, inclusive, false);
    OutputCanonical(DEFAULT_CONTEXT, DEFAULT_CONTEXT, rest, inclusive, false);
  }

  lemma DefaultIsGood()
    ensures GoodContext(DEFAULT_CONTEXT)
  {
  }

  lemma DetachKeepsChildren(ctx: Context, e: Node)
    requires e.Element? && Detach(ctx, e).Ok?
    ensures Detach(ctx, e).value.Element? && Detach(ctx, e).value.child == e.child
  {
  }

  /** Contexts on the way into a message stay good. */
  lemma {:induction false} FollowGood(p: Provider, x: Located, moves: seq<Move>)
    requires GoodContext(x.ctx) && Follow(p, x, moves).Some?
    ensures GoodContext(Follow(p, x, moves).value.ctx)
    decreases |moves|
  {
    hide GoodContext, SubContext;
    DefaultIsGood();
    if moves != [] {
      match moves[0]
      case ToChild(i) =>
        SubContextGood(x.ctx, x.el.attrs);
        FollowGood(p, Located(SubContext(x.ctx, x.el.attrs).value, x.el.child[i]), moves[1..]);
      case Decrypting =>
        FollowGood(p, Located(DEFAULT_CONTEXT, p.decrypt(x).value), moves[1..]);
    }
  }

  /** The content is that of the element as it was in the message, before a KeyInfo was removed, less the
      Signature, if and only if nothing was removed outside the Signature. */
  lemma ContentOfOriginal(p: Provider, y: Located, path: seq<nat>, inclusive: set<string>, v: Node)
    requires y.el.Element? && LessSignature(p, WithoutKeyInfo(y), path, inclusive, v)
    ensures LessSignature(p, y, Lifted(y.el, path), inclusive, v) <==> DropsWithin(y.el, path)
  {
    hide Canonical, ViewOf, RemoveAt, ViewRemoveAt, ViewPath, ViewPathOk, Follow, Lifted, DropsWithin, KeyInfoAt, SignatureAt;
    DroppedView(y.ctx, y.el, path);
    RemovalInView(y.ctx, WithoutKeyInfo(y).el, path);
    RemovalInView(y.ctx, y.el, Lifted(y.el, path));
    if DropsWithin(y.el, path) {
      SignatureWas(p, y, path);
    }
  }

  lemma SignatureWas(p: Provider, y: Located, path: seq<nat>)
    requires y.el.Element? && SignatureAt(p, WithoutKeyInfo(y), path) && DropsWithin(y.el, path)
    requires ElementPath(DropKeyInfo(y.el), path)
    ensures Lifted(y.el, path) == path && SignatureAt(p, y, path)
  {
    hide KeyInfoAt, HasChain, SubContext;
    if KeyInfoAt(y.el).Some? {
      var (i, k) := KeyInfoAt(y.el).value;
      DropIsRemoval(y.el, i, k);
      assert Steps(path) == [ToChild(i)] && [ToChild(i)][1..] == [];
      assert DropKeyInfo(y.el).child[i].attrs == y.el.child[i].attrs;
      FollowOne(p, y, i);
      FollowOne(p, WithoutKeyInfo(y), i);
    }
  }

  lemma FollowOne(p: Provider, x: Located, i: nat)
    requires x.el.Element? && i < |x.el.child|
    ensures Follow(p, x, [ToChild(i)]) ==
              var inner := SubContext(x.ctx, x.el.attrs);
              if inner.Err? then None else Some(Located(inner.value, x.el.child[i]))
  {
    hide SubContext;
    assert [ToChild(i)][1..] == [];
  }

  /** The element inside the message `x` whose signature was checked, and the content that was returned. */
  ghost predicate SignedInside(p: Provider, x: Located, moves: seq<Move>, path: seq<nat>, inclusive: set<string>, v: Node) {
    var y := Follow(p, x, moves);
    && y.Some? && y.value.el.Element? && p.validate(WithoutKeyInfo(y.value)) == Some(v)
    && LessSignature(p, WithoutKeyInfo(y.value), path, inclusive, v)
  }

  /** The assertion was read from a canonical tree whose view is that of some element of the message, in its
      document and with a KeyInfo removed as `DropKeyInfo` says, less its Signature. */
  ghost predicate ReadFromSigned(p: Provider, x: Located, a: Assertion, c: Circumstances) {
    exists moves, path, inclusive, v ::
      SignedInside(p, x, moves, path, inclusive, v) && ReadInside(p, Located(DEFAULT_CONTEXT, v), a, c)
  }

  lemma VerifiedIsSigned(p: Provider, x: Located, a: Assertion, c: Circumstances)
    requires ReturnsSigned(p) && GoodContext(x.ctx) && ReadFromVerified(p, x, a, c)
    ensures ReadFromSigned(p, x, a, c)
  {
    hide GoodContext, Follow, VerifySignature, ReadInside, SignedContent, LessSignature, WithoutKeyInfo;
    var moves :|
      && Follow(p, x, moves).Some?
      && VerifySignature(p, Follow(p, x, moves).value).Ok?
      && ReadInside(p, VerifySignature(p, Follow(p, x, moves).value).value, a, c);
    var y := Follow(p, x, moves).value;
    FollowGood(p, x, moves);
    VerifiedByValidate(p, y);
    var v := p.validate(WithoutKeyInfo(y)).value;
    var path, inclusive :| SignedContent(p, WithoutKeyInfo(y), path, inclusive, v);
    ContentLessSignature(p, WithoutKeyInfo(y), path, inclusive, v);
    assert SignedInside(p, x, moves, path, inclusive, v);
  }

  lemma VerifiedByValidate(p: Provider, y: Located)
    requires VerifySignature(p, y).Ok?
    ensures y.el.Element? && p.validate(WithoutKeyInfo(y)).Some? && WithoutKeyInfo(y).ctx == y.ctx
    ensures VerifySignature(p, y).value == Located(DEFAULT_CONTEXT, p.validate(WithoutKeyInfo(y)).value)
  {
    hide ChildrenFrom, DropKeyInfo;
  }

  /** An accepted Response, when a signature is required. */
  lemma ResponseContent(p: Provider, x: Located, c: Circumstances, r: Result<Assertion, Error>)
    requires ReturnsSigned(p) && GoodContext(x.ctx)
    requires ResponseResult(p, x, c, true, r) && r.Ok?
    ensures ReadFromSigned(p, x, r.value, c)
  {
    hide ReadFromSigned, ReadFromVerified, ResponseResult, ReturnsSigned, GoodContext;
    ResponseProvenance(p, x, c, true, r);
    VerifiedIsSigned(p, x, r.value, c);
  }

  /** An accepted artifact response. */
  lemma ArtifactContent(p: Provider, x: Located, c: Circumstances, requestID: string, r: Result<Assertion, Error>)
    requires ReturnsSigned(p) && GoodContext(x.ctx) && ArtifactEnvelope(p, x, c, requestID).Ok?
    requires ResponseResult(
               p, ArtifactEnvelope(p, x, c, requestID).value.0, c, ArtifactEnvelope(p, x, c, requestID).value.1, r)
    requires r.Ok?
    ensures ReadFromSigned(p, x, r.value, c)
  {
    hide ReadFromSigned, ReadFromVerified, ResponseResult, ReturnsSigned, GoodContext;
    ArtifactProvenance(p, x, c, requestID, r);
    VerifiedIsSigned(p, x, r.value, c);
  }

  // ---------------------------------------------------------------- acceptance

  /** `t` was signed on its own, an unused declaration was added, and the result is `x` in its document, which does
      not give a default namespace to names that were signed without one. */
  ghost predicate SentSigned(t: Node, digested: Node, path: seq<nat>, sig: Node, whole: Node, extra: Attr, x: Located) {
    && SignedAt(t, digested, path, sig, whole) && Unused(whole, extra) && GoodContext(x.ctx)
    && (DEFAULT_PREFIX in Free(digested) ==> x.ctx[DEFAULT_PREFIX] == XML_NAMESPACE)
    && x.el == whole.(attrs := whole.attrs + [extra])
  }

  /** The signature is good for `digested`: `Validate` returns that if it is what remains of the element without
      the Signature at the path. */
  ghost predicate Digests(p: Provider, x: Located, path: seq<nat>, digested: Node)
    requires x.el.Element?
  {
    && Detach(x.ctx, x.el).Ok? && ElementPath(Detach(x.ctx, x.el).value, path)
    && Verified(DEFAULT_CONTEXT, Detach(x.ctx, x.el).value, path) == Ok(digested) ==>
      p.validate(x) == Some(digested)
  }

  /** What the signer digested is what `verifySignature` returns. */
  lemma SignedIsVerified(
      p: Provider, t: Node, digested: Node, path: seq<nat>, sig: Node, whole: Node, extra: Attr, x: Located)
    requires SentSigned(t, digested, path, sig, whole, extra, x)
    requires ReadyToValidate(p, x).None? && DropsWithin(x.el, path) && Digests(p, WithoutKeyInfo(x), path, digested)
    ensures VerifySignature(p, x) == Ok(Located(DEFAULT_CONTEXT, digested))
  {
    hide Exc, ViewOf, WellScoped, Free, RemoveAt, Detach, GoodContext, SignedAt, Unused, DropKeyInfo, DropsWithin, ReadyToValidate, Verified;
    SignThenVerify(t, digested, path, sig, whole, extra, x.ctx);
    DropBeforeDetach(x.ctx, x.el, path);
  }

  lemma DropBeforeDetach(ctx: Context, e: Node, path: seq<nat>)
    requires e.Element? && Detach(ctx, e).Ok? && ElementPath(Detach(ctx, e).value, path) && DropsWithin(e, path)
    ensures Detach(ctx, DropKeyInfo(e)).Ok? && ElementPath(Detach(ctx, DropKeyInfo(e)).value, path)
    ensures Verified(DEFAULT_CONTEXT, Detach(ctx, DropKeyInfo(e)).value, path)
         == Verified(DEFAULT_CONTEXT, Detach(ctx, e).value, path)
  {
    hide KeyInfoAt, Exc;
    if KeyInfoAt(e).Some? {
      var (i, k) := KeyInfoAt(e).value;
      DropIsRemoval(e, i, k);
      var d := DropKeyInfo(e);
      assert d.child[..i] == e.child[..i] && d.child[i + 1..] == e.child[i + 1..];
    }
  }

  /** The content that is signed: a Response in order, whose one assertion is `a`. */
  ghost predicate HasOneAssertion(p: Provider, content: Located, c: Circumstances, a: Assertion) {
    var read := p.readResponse(content);
    && read.Some? && read.value.success
    && (read.value.destination == c.currentURL || read.value.destination == p.sp.acsURL)
    && ((p.sp.allowIDPInitiated && read.value.inResponseTo == "") || read.value.inResponseTo in c.ids)
    && c.now <= read.value.issueInstant + p.limits.issueDelay
    && (read.value.issuer.Some? ==> read.value.issuer.value == p.sp.idpEntityID)
    && ChildrenOf(content, "urn:oasis:names:tc:SAML:2.0:assertion", "EncryptedAssertion") == Ok([])
    && var plain := ChildrenOf(content, "urn:oasis:names:tc:SAML:2.0:assertion", "Assertion");
    && plain.Ok? && |plain.value| == 1 && p.readAssertion(plain.value[0]) == Some(a)
  }

  /** A Response that was signed as the signer does it, with one assertion, which the identity provider made
      and which arrives in its window, is accepted, and that assertion is the result. */
  lemma SignedIsAccepted(
      p: Provider, t: Node, digested: Node, path: seq<nat>, sig: Node, whole: Node, extra: Attr, x: Located,
      c: Circumstances, req: IdpRequest, issueInstant: int, r: Result<Assertion, Error>)
    requires SentSigned(t, digested, path, sig, whole, extra, x)
    requires ReadyToValidate(p, x).None? && DropsWithin(x.el, path) && Digests(p, WithoutKeyInfo(x), path, digested)
    requires HasOneAssertion(p, Located(DEFAULT_CONTEXT, digested), c, MakeAssertion(req, p.limits, issueInstant))
    requires req.idpEntityID == p.sp.idpEntityID && req.acsLocation == p.sp.acsURL
    requires req.spEntityID == if p.sp.entityID == "" then p.sp.metadataURL else p.sp.entityID
    requires ((p.sp.allowIDPInitiated && req.id == "") || req.id in c.ids) && req.now - 2 * p.limits.clockSkew <= c.now
    requires c.now <= Min(issueInstant + p.limits.issueDelay, req.now + p.limits.issueDelay + p.limits.clockSkew)
    ensures ResponseResult(p, x, c, true, r) <==> r == Ok(MakeAssertion(req, p.limits, issueInstant))
  {
    hide *;
    SignedIsVerified(p, t, digested, path, sig, whole, extra, x);
    AcceptanceWindow(req, p.limits, issueInstant, p.sp, c.ids, c.now);
    VerifiedIsAccepted(p, x, Located(DEFAULT_CONTEXT, digested), c, MakeAssertion(req, p.limits, issueInstant), r);
  }

  lemma VerifiedIsAccepted(
      p: Provider, x: Located, content: Located, c: Circumstances, a: Assertion, r: Result<Assertion, Error>)
    requires VerifySignature(p, x) == Ok(content) && HasOneAssertion(p, content, c, a)
    requires Acceptable(p.sp, p.limits, a, c.ids, c.now)
    ensures ResponseResult(p, x, c, true, r) <==> r == Ok(a)
  {
    hide VerifySignature, ChildrenOf, Acceptable, Candidates, Envelope;
    EnvelopeExactly(p, x, c, true);
    OneCandidate(p, content, c, a);
    assert FirstValid([Ok(a)], 0);
    assert Envelope(p, x, c, true) == Ok((content, false));
  }

  lemma OneCandidate(p: Provider, content: Located, c: Circumstances, a: Assertion)
    requires HasOneAssertion(p, content, c, a) && Acceptable(p.sp, p.limits, a, c.ids, c.now)
    ensures Candidates(p, content, c, false) == Ok([Ok(a)])
  {
    hide ChildrenOf, Acceptable, EnvelopeOk;
    var plain := ChildrenOf(content, ASSERTION_NAMESPACE, "Assertion").value;
    assert ParseAssertion(p, plain[0], c, false) == Ok(a);
    var candidates := Candidates(p, content, c, false);
    assert candidates.Ok? && candidates.value == [Ok(a)];
  }
}
