/** How a service provider takes an assertion out of a message (service_provider.go): which elements it
    reads, and what has been verified of them. */
module Pipeline {
  import opened Wrappers
  import opened Xml
  import opened KeyInfo
  import opened Acceptance

  /** An element with the context around it, which the code builds from its ancestors. */
  datatype Located = Located(ctx: Context, el: Node)

  datatype Error =
    | SignatureAbsent | SignatureInvalid | Namespace | NotFound | NotOne | Unreadable | Undecryptable
    | BadEnvelope | BadAssertion | NoAssertion

  datatype Response = Response(
    destination: string, inResponseTo: string, issueInstant: int, issuer: Option<string>, success: bool)

  /** The service provider, its libraries and its keys. `certificates` says whether `verifySignature` comes by
      certificates for an element. `validate` stands for detaching the element and `Validate` of internal/dsig,
      which gives the verified content as a new document. `read...` are `unmarshalElement` of the respective
      types. */
  datatype Provider = Provider(
    sp: ServiceProvider,
    limits: Limits,
    certificates: Located -> bool,
    validate: Located -> Option<Node>,
    decrypt: Located -> Option<Node>,
    readArtifactResponse: Located -> Option<Response>,
    readResponse: Located -> Option<Response>,
    readAssertion: Located -> Option<Assertion>)

  // ---------------------------------------------------------------- children

  const PROTOCOL_NAMESPACE := "urn:oasis:names:tc:SAML:2.0:protocol"
  const ASSERTION_NAMESPACE := "urn:oasis:names:tc:SAML:2.0:assertion"

  /** Whether a child is the one that is looked for, or why that cannot be told. */
  function Matches(inner: Result<Context, NsError>, child: Node, namespace: string, tag: Name): Result<bool, Error> {
    if !child.Element? || child.tag != tag then Ok(false)
    else if inner.Err? then Err(Namespace)
    else
      var own := SubContext(inner.value, child.attrs);
      if own.Err? || child.space !in own.value then Err(Namespace)
      else Ok(own.value[child.space] == namespace)
  }

  /** The matching children of `ns[from..]`. */
  function ChildrenFrom(inner: Result<Context, NsError>, ns: seq<Node>, namespace: string, tag: Name): Result<seq<Located>, Error> {
    if ns == [] then Ok([])
    else
      var matches :- Matches(inner, ns[0], namespace, tag);
      var rest :- ChildrenFrom(inner, ns[1..], namespace, tag);
      Ok(if matches then [Located(inner.value, ns[0])] + rest else rest)
  }

  function ChildrenOf(parent: Located, namespace: string, tag: Name): Result<seq<Located>, Error> {
    if !parent.el.Element? then Ok([])
    else ChildrenFrom(SubContext(parent.ctx, parent.el.attrs), parent.el.child, namespace, tag)
  }

  /** `findChildren`. */
  method FindChildren(parent: Located, namespace: string, tag: Name) returns (r: Result<seq<Located>, Error>)
    ensures r == ChildrenOf(parent, namespace, tag)
    ensures parent.el.Element? ==>
              var inner := SubContext(parent.ctx, parent.el.attrs);
              && (r.Ok? <==> forall n :: n in parent.el.child ==> CanTell(inner, n, tag))
              && (r.Ok? ==> exists places :: FoundAt(inner, parent.el.child, namespace, tag, r.value, places))
  {
    hide Matches, CanTell, FoundAt;
    if !parent.el.Element? {
      return Ok([]);
    }
    ghost var places := FindsExactly(parent, namespace, tag);
    var inner := SubContext(parent.ctx, parent.el.attrs);
    var ns := parent.el.child;
    var found: seq<Located> := [];
    for k := 0 to |ns|
      invariant ChildrenFrom(inner, ns[..k], namespace, tag) == Ok(found)
    {
      ChildrenSplit(inner, ns, k, namespace, tag);
      var matches := Matches(inner, ns[k], namespace, tag);
      if matches.Err? {
        return Err(matches.error);
      }
      if matches.value {
        found := found + [Located(inner.value, ns[k])];
      } else {
        assert found + [] == found;
      }
    }
    assert ns[..|ns|] == ns;
    r := Ok(found);
  }

  lemma {:induction false} ChildrenConcat(inner: Result<Context, NsError>, ms: seq<Node>, ns: seq<Node>, namespace: string, tag: Name)
    ensures ChildrenFrom(inner, ms + ns, namespace, tag) ==
              if ChildrenFrom(inner, ms, namespace, tag).Err? then ChildrenFrom(inner, ms, namespace, tag)
              else if ChildrenFrom(inner, ns, namespace, tag).Err? then ChildrenFrom(inner, ns, namespace, tag)
              else Ok(ChildrenFrom(inner, ms, namespace, tag).value + ChildrenFrom(inner, ns, namespace, tag).value)
  {
    hide Matches;
    var right := ChildrenFrom(inner, ns, namespace, tag);
    if ms == [] {
      assert [] + ns == ns;
      if right.Ok? { assert [] + right.value == right.value; }
    } else {
      assert (ms + ns)[0] == ms[0] && (ms + ns)[1..] == ms[1..] + ns;
      ChildrenConcat(inner, ms[1..], ns, namespace, tag);
      var left := ChildrenFrom(inner, ms[1..], namespace, tag);
      if Matches(inner, ms[0], namespace, tag) == Ok(true) && left.Ok? && right.Ok? {
        assert inner.Ok? by { MatchHasContext(inner, ms[0], namespace, tag); }
        var own := [Located(inner.value, ms[0])];
        assert own + (left.value + right.value) == own + left.value + right.value;
      }
    }
  }

  lemma MatchHasContext(inner: Result<Context, NsError>, child: Node, namespace: string, tag: Name)
    requires Matches(inner, child, namespace, tag) == Ok(true)
    ensures inner.Ok? && child.Element? && child.tag == tag
  {
  }

  lemma ChildrenSplit(inner: Result<Context, NsError>, ns: seq<Node>, k: nat, namespace: string, tag: Name)
    requires k < |ns| && ChildrenFrom(inner, ns[..k], namespace, tag).Ok?
    ensures var before, matches := ChildrenFrom(inner, ns[..k], namespace, tag).value, Matches(inner, ns[k], namespace, tag);
            && (matches.Err? ==> ChildrenFrom(inner, ns, namespace, tag) == Err(matches.error))
            && (matches == Ok(true) ==> inner.Ok?)
            && (matches.Ok? ==>
                  ChildrenFrom(inner, ns[..k + 1], namespace, tag)
                  == Ok(before + (if matches.value then [Located(inner.value, ns[k])] else [])))
  {
    hide Matches;
    assert ns[..k + 1] == ns[..k] + [ns[k]] && ns == ns[..k] + ns[k..];
    ChildrenConcat(inner, ns[..k], [ns[k]], namespace, tag);
    ChildrenConcat(inner, ns[..k], ns[k..], namespace, tag);
    assert [ns[k]][1..] == [];
    var matches := Matches(inner, ns[k], namespace, tag);
    if matches == Ok(true) {
      MatchHasContext(inner, ns[k], namespace, tag);
      assert [Located(inner.value, ns[k])] + [] == [Located(inner.value, ns[k])];
    }
  }

  /** The child is an element with this name and namespace, where `inner` is in scope around it. */
  predicate IsSought(inner: Context, n: Node, namespace: string, tag: Name) {
    n.Element? && n.tag == tag && Lookup(inner + Decls(n.attrs), n.space) == Some(namespace)
  }

  /** The child has this name, and its namespace can be told. */
  predicate CanTell(inner: Result<Context, NsError>, n: Node, tag: Name) {
    n.Element? && n.tag == tag ==> inner.Ok? && DeclsError(n.attrs).None? && n.space in inner.value + Decls(n.attrs)
  }

  lemma MatchesMeans(inner: Result<Context, NsError>, n: Node, namespace: string, tag: Name)
    ensures var matches := Matches(inner, n, namespace, tag);
            && (matches.Ok? <==> CanTell(inner, n, tag))
            && (matches.Ok? ==> (matches.value <==> inner.Ok? && IsSought(inner.value, n, namespace, tag)))
            && (matches == Ok(true) ==> inner.Ok?)
  {
  }

  lemma {:induction false} CanTellAll(inner: Result<Context, NsError>, ns: seq<Node>, namespace: string, tag: Name)
    ensures ChildrenFrom(inner, ns, namespace, tag).Ok? <==> forall n :: n in ns ==> CanTell(inner, n, tag)
  {
    hide Matches, CanTell;
    if ns != [] {
      MatchesMeans(inner, ns[0], namespace, tag);
      CanTellAll(inner, ns[1..], namespace, tag);
      assert forall n :: n in ns <==> n == ns[0] || n in ns[1..];
    }
  }

  /** The found elements are those at these places, one after the other, and nothing else is sought. */
  ghost predicate FoundAt(
      inner: Result<Context, NsError>, ns: seq<Node>, namespace: string, tag: Name, found: seq<Located>, places: seq<nat>)
  {
    && |places| == |found|
    && (forall t :: 0 <= t < |places| ==>
          && places[t] < |ns| && inner.Ok? && IsSought(inner.value, ns[places[t]], namespace, tag)
          && found[t] == Located(inner.value, ns[places[t]]))
    && (forall t, u :: 0 <= t < u < |places| ==> places[t] < places[u])
    && (forall i: nat :: i < |ns| && inner.Ok? && IsSought(inner.value, ns[i], namespace, tag) ==> i in places)
  }

  /** One more child that is sought, and one that is not. */
  lemma FoundAtNext(
      inner: Context, ns: seq<Node>, namespace: string, tag: Name, found: seq<Located>, places: seq<nat>, n: Node)
    requires FoundAt(Ok(inner), ns, namespace, tag, found, places) && IsSought(inner, n, namespace, tag)
    ensures FoundAt(Ok(inner), ns + [n], namespace, tag, found + [Located(inner, n)], places + [|ns|])
  {
    hide IsSought;
    var ns', found', places' := ns + [n], found + [Located(inner, n)], places + [|ns|];
    forall t | 0 <= t < |places'|
      ensures places'[t] < |ns'| && IsSought(inner, ns'[places'[t]], namespace, tag)
           && found'[t] == Located(inner, ns'[places'[t]])
    {
      if t < |places| { assert ns'[places[t]] == ns[places[t]]; }
    }
    forall i: nat | i < |ns'| && IsSought(inner, ns'[i], namespace, tag) ensures i in places' {
      if i < |ns| {
        assert ns'[i] == ns[i] && i in places;
      } else {
        assert places'[|places|] == i;
      }
    }
  }

  lemma NotFoundNext(
      inner: Result<Context, NsError>, ns: seq<Node>, namespace: string, tag: Name, found: seq<Located>, places: seq<nat>,
      n: Node)
    requires FoundAt(inner, ns, namespace, tag, found, places) && !(inner.Ok? && IsSought(inner.value, n, namespace, tag))
    ensures FoundAt(inner, ns + [n], namespace, tag, found, places)
  {
    hide IsSought;
    var ns' := ns + [n];
    forall i: nat | i < |ns'| && inner.Ok? && IsSought(inner.value, ns'[i], namespace, tag) ensures i in places {
      assert i < |ns| && ns'[i] == ns[i];
    }
  }

  lemma {:induction false} FoundPlaces(inner: Result<Context, NsError>, ns: seq<Node>, namespace: string, tag: Name)
    returns (places: seq<nat>)
    requires ChildrenFrom(inner, ns, namespace, tag).Ok?
    ensures FoundAt(inner, ns, namespace, tag, ChildrenFrom(inner, ns, namespace, tag).value, places)
    decreases |ns|
  {
    hide Matches, IsSought, CanTell, FoundAt;
    if ns == [] {
      NothingFound(inner, namespace, tag);
      places := [];
    } else {
      var k := |ns| - 1;
      ChildrenConcat(inner, ns[..k], [ns[k]], namespace, tag);
      assert ns == ns[..k] + [ns[k]];
      places := FoundPlaces(inner, ns[..k], namespace, tag);
      var found := ChildrenFrom(inner, ns[..k], namespace, tag).value;
      ChildrenSplit(inner, ns, k, namespace, tag);
      assert ns[..k + 1] == ns;
      MatchesMeans(inner, ns[k], namespace, tag);
      if Matches(inner, ns[k], namespace, tag) == Ok(true) {
        FoundAtNext(inner.value, ns[..k], namespace, tag, found, places, ns[k]);
        places := places + [k];
      } else {
        NotFoundNext(inner, ns[..k], namespace, tag, found, places, ns[k]);
        assert found + [] == found;
      }
    }
  }

  lemma NothingFound(inner: Result<Context, NsError>, namespace: string, tag: Name)
    ensures FoundAt(inner, [], namespace, tag, [], [])
  {
  }

  /** `findChildren` fails if and only if it meets a child of this name whose namespace cannot be told. Otherwise it
      finds exactly the children with the name and the namespace, in document order, each with the context that it is in. */
  lemma FindsExactly(parent: Located, namespace: string, tag: Name) returns (places: seq<nat>)
    requires parent.el.Element?
    ensures var inner, found := SubContext(parent.ctx, parent.el.attrs), ChildrenOf(parent, namespace, tag);
            && (found.Ok? <==> forall n :: n in parent.el.child ==> CanTell(inner, n, tag))
            && (found.Ok? ==> FoundAt(inner, parent.el.child, namespace, tag, found.value, places))
  {
    hide ChildrenFrom, CanTell, FoundAt, SubContext;
    var inner := SubContext(parent.ctx, parent.el.attrs);
    CanTellAll(inner, parent.el.child, namespace, tag);
    places := [];
    if ChildrenOf(parent, namespace, tag).Ok? {
      places := FoundPlaces(inner, parent.el.child, namespace, tag);
    }
  }

  function OneChild(parent: Located, namespace: string, tag: Name): Result<Located, Error> {
    var found :- ChildrenOf(parent, namespace, tag);
    if found == [] then Err(NotFound) else if |found| > 1 then Err(NotOne) else Ok(found[0])
  }

  // ---------------------------------------------------------------- the pipeline

  /** Whether `verifySignature` gets as far as `signatureValidationContext`, or why not. */
  function ReadyToValidate(p: Provider, x: Located): Option<Error> {
    var signatures := ChildrenOf(x, DSIG_NAMESPACE, "Signature");
    if signatures.Err? then Some(signatures.error)
    else if signatures.value == [] then Some(SignatureAbsent)
    else if |signatures.value| > 1 then Some(NotOne)
    else if !p.certificates(x) then Some(SignatureInvalid)
    else None
  }

  /** `verifySignature` with no custom verifier. What it returns is a new document. */
  function VerifySignature(p: Provider, x: Located): Result<Located, Error> {
    if ReadyToValidate(p, x).Some? then Err(ReadyToValidate(p, x).value)
    else
      match p.validate(WithoutKeyInfo(x))
      case None => Err(SignatureInvalid)
      case Some(verified) => Ok(Located(DEFAULT_CONTEXT, verified))
  }

  /** The check of a signature succeeds if and only if there is one Signature of XML Signature among the children, there
      are certificates, and what is left of the element validates. It reports that there is none if and only if there is
      none and that can be told. */
  lemma VerifiesExactly(p: Provider, x: Located)
    ensures var signatures := ChildrenOf(x, "http://www.w3.org/2000/09/xmldsig#", "Signature");
            && (VerifySignature(p, x).Ok? <==>
                  signatures.Ok? && |signatures.value| == 1 && p.certificates(x) && p.validate(WithoutKeyInfo(x)).Some?)
            && (VerifySignature(p, x).Ok? ==>
                  VerifySignature(p, x).value == Located(DEFAULT_CONTEXT, p.validate(WithoutKeyInfo(x)).value))
            && (VerifySignature(p, x) == Err(SignatureAbsent) <==> signatures == Ok([]))
            && Left(p, x) == if signatures.Ok? && |signatures.value| == 1 && p.certificates(x) then WithoutKeyInfo(x) else x
  {
    hide ChildrenFrom, WithoutKeyInfo;
    ChildrenErrors(x, "http://www.w3.org/2000/09/xmldsig#", "Signature");
  }

  lemma ChildrenErrors(parent: Located, namespace: string, tag: Name)
    ensures ChildrenOf(parent, namespace, tag).Err? ==> ChildrenOf(parent, namespace, tag).error == Namespace
  {
    if parent.el.Element? {
      ChildrenFromErrors(SubContext(parent.ctx, parent.el.attrs), parent.el.child, namespace, tag);
    }
  }

  lemma {:induction false} ChildrenFromErrors(inner: Result<Context, NsError>, ns: seq<Node>, namespace: string, tag: Name)
    ensures ChildrenFrom(inner, ns, namespace, tag).Err? ==> ChildrenFrom(inner, ns, namespace, tag).error == Namespace
  {
    if ns != [] {
      ChildrenFromErrors(inner, ns[1..], namespace, tag);
    }
  }

  function WithoutKeyInfo(x: Located): Located {
    if x.el.Element? then x.(el := DropKeyInfo(x.el)) else x
  }

  /** What `verifySignature` leaves of the element that it is given. */
  function Left(p: Provider, x: Located): Located {
    if ReadyToValidate(p, x).None? then WithoutKeyInfo(x) else x
  }

  /** The rest of the circumstances: the request IDs, the time, and where the message was received. */
  datatype Circumstances = Circumstances(ids: seq<string>, now: int, currentURL: string)

  ghost predicate Valid(p: Provider, a: Assertion, c: Circumstances) {
    Acceptable(p.sp, p.limits, a, c.ids, c.now)
  }

  /** `parseAssertion`. */
  ghost function ParseAssertion(p: Provider, x: Located, c: Circumstances, required: bool): Result<Assertion, Error> {
    var source :- if required then VerifySignature(p, x) else Ok(x);
    var a := p.readAssertion(source);
    if a.None? then Err(Unreadable) else if !Valid(p, a.value, c) then Err(BadAssertion) else Ok(a.value)
  }

  /** `parseEncryptedAssertion`. */
  ghost function ParseEncrypted(p: Provider, x: Located, c: Circumstances, required: bool): Result<Assertion, Error> {
    var plain := p.decrypt(x);
    if plain.None? then Err(Undecryptable) else ParseAssertion(p, Located(DEFAULT_CONTEXT, plain.value), c, required)
  }

  /** The checks of the attributes of a Response. */
  predicate EnvelopeOk(p: Provider, r: Response, c: Circumstances, signed: bool) {
    && (signed || r.destination != "" ==> r.destination == c.currentURL || r.destination == p.sp.acsURL)
    && Tracked(p.sp, c.ids, r.inResponseTo)
    && c.now <= r.issueInstant + p.limits.issueDelay
    && (r.issuer.Some? ==> r.issuer.value == p.sp.idpEntityID)
    && r.success
  }

  /** What `parseResponse` goes on with once the envelope is in order: the element to take assertions
      from, and whether each needs a signature of its own. */
  function Envelope(p: Provider, x: Located, c: Circumstances, required: bool): Result<(Located, bool), Error> {
    var verified := if required then VerifySignature(p, x) else Err(SignatureAbsent);
    var content := if verified.Ok? then verified.value else if required then Left(p, x) else x;
    var signed := required && verified != Err(SignatureAbsent);
    var response := p.readResponse(content);
    if response.None? then Err(Unreadable)
    else if !EnvelopeOk(p, response.value, c, signed) then Err(BadEnvelope)
    else if required && verified.Err? && verified.error != SignatureAbsent then Err(verified.error)
    else Ok((content, required && verified.Err?))
  }

  /** The envelope is in order if and only if there is no signature that fails, where one is required, and each attribute
      of the record that is read from the verified content, or else from the element itself, is as it has to be: the
      status is a success; the destination is where the message was received, and is left out only without a signature;
      the request is known; the response is not too old; and the issuer, if there is one, is the identity provider. */
  lemma EnvelopeExactly(p: Provider, x: Located, c: Circumstances, required: bool)
    ensures var verified := VerifySignature(p, x);
            var signed := required && verified.Ok?;
            var content := if signed then verified.value else x;
            var envelope := Envelope(p, x, c, required);
            && (envelope.Ok? ==> envelope.value == (content, required && !signed))
            && (envelope.Ok? <==>
                  && (required ==> verified.Ok? || verified == Err(SignatureAbsent))
                  && p.readResponse(content).Some? && var response := p.readResponse(content).value;
                  && response.success
                  && (signed || response.destination != "" ==>
                        response.destination == c.currentURL || response.destination == p.sp.acsURL)
                  && ((p.sp.allowIDPInitiated && response.inResponseTo == "") || response.inResponseTo in c.ids)
                  && c.now <= response.issueInstant + p.limits.issueDelay
                  && (response.issuer.Some? ==> response.issuer.value == p.sp.idpEntityID))
  {
    hide VerifySignature, Left;
    if VerifySignature(p, x) == Err(SignatureAbsent) {
      AbsentLeaves(p, x);
    }
  }

  /** A signature that fails is reported only after the attributes have been read, from what the check has left of the
      element, and found to be in order. */
  lemma FailedSignatureReported(p: Provider, x: Located, c: Circumstances)
    requires VerifySignature(p, x).Err? && VerifySignature(p, x) != Err(SignatureAbsent)
    ensures Envelope(p, x, c, true) ==
              var read := p.readResponse(Left(p, x));
              if read.None? then Err(Unreadable)
              else if && read.value.success
                      && (read.value.destination == c.currentURL || read.value.destination == p.sp.acsURL)
                      && ((p.sp.allowIDPInitiated && read.value.inResponseTo == "") || read.value.inResponseTo in c.ids)
                      && c.now <= read.value.issueInstant + p.limits.issueDelay
                      && (read.value.issuer.Some? ==> read.value.issuer.value == p.sp.idpEntityID)
                   then Err(VerifySignature(p, x).error)
              else Err(BadEnvelope)
  {
    hide VerifySignature, Left;
  }

  /** Any attribute that is not as it has to be is an error. */
  lemma BadResponseRefused(p: Provider, x: Located, c: Circumstances, required: bool, r: Result<Assertion, Error>)
    requires ResponseResult(p, x, c, required, r)
    requires var verified := VerifySignature(p, x);
             var signed := required && verified.Ok?;
             var read := p.readResponse(if signed then verified.value else x);
             read.Some? && var response := read.value;
             || !response.success
             || (signed && response.destination != c.currentURL && response.destination != p.sp.acsURL)
             || (response.destination != "" && response.destination != c.currentURL && response.destination != p.sp.acsURL)
             || (response.inResponseTo != "" && response.inResponseTo !in c.ids)
             || (!p.sp.allowIDPInitiated && response.inResponseTo !in c.ids)
             || response.issueInstant + p.limits.issueDelay < c.now
             || (response.issuer.Some? && response.issuer.value != p.sp.idpEntityID)
    ensures r.Err?
  {
    hide VerifySignature, Envelope, EnvelopeOk;
    EnvelopeExactly(p, x, c, required);
  }

  /** The outcome for each encrypted assertion and then for each plain one, in document order. */
  ghost function Candidates(p: Provider, x: Located, c: Circumstances, required: bool): Result<seq<Result<Assertion, Error>>, Error> {
    var encrypted :- ChildrenOf(x, ASSERTION_NAMESPACE, "EncryptedAssertion");
    var plain :- ChildrenOf(x, ASSERTION_NAMESPACE, "Assertion");
    Ok(seq(|encrypted|, i requires 0 <= i < |encrypted| => ParseEncrypted(p, encrypted[i], c, required))
       + seq(|plain|, i requires 0 <= i < |plain| => ParseAssertion(p, plain[i], c, required)))
  }

  /** `k` is the first candidate that is valid. */
  ghost predicate FirstValid(candidates: seq<Result<Assertion, Error>>, k: nat) {
    k < |candidates| && candidates[k].Ok? && forall j :: 0 <= j < k ==> candidates[j].Err?
  }

  /** What `parseResponse` is to return. */
  ghost predicate ResponseResult(p: Provider, x: Located, c: Circumstances, required: bool, r: Result<Assertion, Error>) {
    var envelope := Envelope(p, x, c, required);
    if envelope.Err? then r == Err(envelope.error)
    else
      var (content, each) := envelope.value;
      var candidates := Candidates(p, content, c, each);
      if candidates.Err? then r == Err(candidates.error)
      else
        && (r.Ok? ==> exists k: nat :: FirstValid(candidates.value, k) && candidates.value[k] == r)
        && (r.Err? ==> && (forall i :: 0 <= i < |candidates.value| ==> candidates.value[i].Err?)
                       && r == (if candidates.value == [] then Err(NoAssertion) else candidates.value[0]))
  }

  // ---------------------------------------------------------------- the code

  method CheckAssertion(p: Provider, x: Located, c: Circumstances, required: bool) returns (r: Result<Assertion, Error>)
    ensures r == ParseAssertion(p, x, c, required)
  {
    var source := x;
    if required {
      var verified := VerifySignature(p, x);
      if verified.Err? {
        return Err(verified.error);
      }
      source := verified.value;
    }
    var a := p.readAssertion(source);
    if a.None? {
      return Err(Unreadable);
    }
    var failure := ValidateAssertion(p.sp, p.limits, a.value, c.ids, c.now);
    r := if failure.Some? then Err(BadAssertion) else Ok(a.value);
  }

  /** `parseResponse`. */
  method ParseResponse(p: Provider, x: Located, c: Circumstances, required: bool) returns (r: Result<Assertion, Error>)
    ensures ResponseResult(p, x, c, required, r)
    ensures r.Ok? ==>
              var verified := VerifySignature(p, x);
              var signed := required && verified.Ok?;
              var read := p.readResponse(if signed then verified.value else x);
              && (required ==> verified.Ok? || verified == Err(SignatureAbsent))
              && read.Some? && var response := read.value;
              && response.success
              && (signed || response.destination != "" ==>
                    response.destination == c.currentURL || response.destination == p.sp.acsURL)
              && ((p.sp.allowIDPInitiated && response.inResponseTo == "") || response.inResponseTo in c.ids)
              && c.now <= response.issueInstant + p.limits.issueDelay
              && (response.issuer.Some? ==> response.issuer.value == p.sp.idpEntityID)
  {
    hide ParseAssertion, Envelope, ChildrenOf, Accepted, Errors, VerifySignature, CanTell, FoundAt;
    NothingCollected();
    var envelope := Envelope(p, x, c, required);
    if envelope.Err? {
      return Err(envelope.error);
    }
    EnvelopeExactly(p, x, c, required);
    var (content, each) := envelope.value;
    var errs: seq<Error> := [];
    var assertions: seq<Assertion> := [];
    ghost var outcomes: seq<Result<Assertion, Error>> := [];
    var encrypted := FindChildren(content, ASSERTION_NAMESPACE, "EncryptedAssertion");
    if encrypted.Err? {
      return Err(encrypted.error);
    }
    for i := 0 to |encrypted.value|
      invariant |outcomes| == i && Collected(outcomes, assertions, errs)
      invariant forall j :: 0 <= j < i ==> outcomes[j] == ParseEncrypted(p, encrypted.value[j], c, each)
    {
      var plain := p.decrypt(encrypted.value[i]);
      var one: Result<Assertion, Error>;
      if plain.None? {
        one := Err(Undecryptable);
      } else {
        one := CheckAssertion(p, Located(DEFAULT_CONTEXT, plain.value), c, each);
      }
      if one.Err? {
        errs := errs + [one.error];
      } else {
        assertions := assertions + [one.value];
      }
      CollectOne(outcomes, one);
      outcomes := outcomes + [one];
    }
    ghost var m := |encrypted.value|;
    var plain := FindChildren(content, ASSERTION_NAMESPACE, "Assertion");
    if plain.Err? {
      return Err(plain.error);
    }
    for i := 0 to |plain.value|
      invariant |outcomes| == m + i && Collected(outcomes, assertions, errs)
      invariant forall j :: 0 <= j < m ==> outcomes[j] == ParseEncrypted(p, encrypted.value[j], c, each)
      invariant forall j :: 0 <= j < i ==> outcomes[m + j] == ParseAssertion(p, plain.value[j], c, each)
    {
      var one := CheckAssertion(p, plain.value[i], c, each);
      if one.Err? {
        errs := errs + [one.error];
      } else {
        assertions := assertions + [one.value];
      }
      CollectOne(outcomes, one);
      outcomes := outcomes + [one];
    }
    assert outcomes == Candidates(p, content, c, each).value;
    CollectedFirst(outcomes);
    if |assertions| == 0 {
      r := if |errs| > 0 then Err(errs[0]) else Err(NoAssertion);
    } else {
      r := Ok(assertions[0]);
    }
  }

  /** The first valid encrypted assertion is returned, whatever plain ones there are, and the first valid plain one only if
      no encrypted one is valid. */
  lemma EncryptedBeforePlain(p: Provider, x: Located, c: Circumstances, required: bool, r: Result<Assertion, Error>, k: nat)
    requires ResponseResult(p, x, c, required, r) && Envelope(p, x, c, required).Ok?
    requires var (content, each) := Envelope(p, x, c, required).value;
             var encrypted := ChildrenOf(content, "urn:oasis:names:tc:SAML:2.0:assertion", "EncryptedAssertion");
             && encrypted.Ok? && ChildrenOf(content, "urn:oasis:names:tc:SAML:2.0:assertion", "Assertion").Ok?
             && k <= |encrypted.value|
             && (forall i :: 0 <= i < k ==> ParseEncrypted(p, encrypted.value[i], c, each).Err?)
    ensures var (content, each) := Envelope(p, x, c, required).value;
            var encrypted := ChildrenOf(content, "urn:oasis:names:tc:SAML:2.0:assertion", "EncryptedAssertion").value;
            var plain := ChildrenOf(content, "urn:oasis:names:tc:SAML:2.0:assertion", "Assertion").value;
            && (k < |encrypted| && ParseEncrypted(p, encrypted[k], c, each).Ok? ==> r == ParseEncrypted(p, encrypted[k], c, each))
            && (k == |encrypted| ==>
                  forall l :: 0 <= l < |plain| && ParseAssertion(p, plain[l], c, each).Ok?
                              && (forall i :: 0 <= i < l ==> ParseAssertion(p, plain[i], c, each).Err?) ==>
                    r == ParseAssertion(p, plain[l], c, each))
  {
    hide ParseEncrypted, ParseAssertion, ChildrenOf, Envelope, FirstValid, Candidates;
    var (content, each) := Envelope(p, x, c, required).value;
    var encrypted := ChildrenOf(content, "urn:oasis:names:tc:SAML:2.0:assertion", "EncryptedAssertion").value;
    var plain := ChildrenOf(content, "urn:oasis:names:tc:SAML:2.0:assertion", "Assertion").value;
    CandidatesAre(p, content, c, each);
    var candidates := Candidates(p, content, c, each).value;
    if k < |encrypted| && ParseEncrypted(p, encrypted[k], c, each).Ok? {
      IsFirstValid(candidates, k);
    }
    if k == |encrypted| {
      forall l | 0 <= l < |plain| && ParseAssertion(p, plain[l], c, each).Ok?
                 && (forall i :: 0 <= i < l ==> ParseAssertion(p, plain[i], c, each).Err?)
        ensures r == ParseAssertion(p, plain[l], c, each)
      {
        forall i | 0 <= i < |encrypted| + l ensures candidates[i].Err? {
          if i >= |encrypted| {
            var j := i - |encrypted|;
            assert candidates[|encrypted| + j] == ParseAssertion(p, plain[j], c, each);
          }
        }
        IsFirstValid(candidates, |encrypted| + l);
      }
    }
  }

  lemma CandidatesAre(p: Provider, content: Located, c: Circumstances, each: bool)
    requires ChildrenOf(content, "urn:oasis:names:tc:SAML:2.0:assertion", "EncryptedAssertion").Ok?
    requires ChildrenOf(content, "urn:oasis:names:tc:SAML:2.0:assertion", "Assertion").Ok?
    ensures var encrypted := ChildrenOf(content, "urn:oasis:names:tc:SAML:2.0:assertion", "EncryptedAssertion").value;
            var plain := ChildrenOf(content, "urn:oasis:names:tc:SAML:2.0:assertion", "Assertion").value;
            var candidates := Candidates(p, content, c, each);
            && candidates.Ok? && |candidates.value| == |encrypted| + |plain|
            && (forall i :: 0 <= i < |encrypted| ==> candidates.value[i] == ParseEncrypted(p, encrypted[i], c, each))
            && (forall i :: 0 <= i < |plain| ==> candidates.value[|encrypted| + i] == ParseAssertion(p, plain[i], c, each))
  {
    hide ParseEncrypted, ParseAssertion, ChildrenOf;
  }

  lemma IsFirstValid(candidates: seq<Result<Assertion, Error>>, k: nat)
    requires k < |candidates| && candidates[k].Ok? && forall j :: 0 <= j < k ==> candidates[j].Err?
    ensures FirstValid(candidates, k) && forall j: nat :: FirstValid(candidates, j) ==> j == k
  {
  }

  function Accepted(outcomes: seq<Result<Assertion, Error>>): seq<Assertion> {
    if outcomes == [] then [] else (if outcomes[0].Ok? then [outcomes[0].value] else []) + Accepted(outcomes[1..])
  }

  function Errors(outcomes: seq<Result<Assertion, Error>>): seq<Error> {
    if outcomes == [] then [] else (if outcomes[0].Err? then [outcomes[0].error] else []) + Errors(outcomes[1..])
  }

  /** The two lists that `parseResponse` appends to, after the outcomes so far. */
  ghost predicate Collected(outcomes: seq<Result<Assertion, Error>>, assertions: seq<Assertion>, errs: seq<Error>) {
    assertions == Accepted(outcomes) && errs == Errors(outcomes)
  }

  lemma NothingCollected()
    ensures Accepted([]) == [] && Errors([]) == []
  {
  }

  lemma {:induction false} CollectOne(outcomes: seq<Result<Assertion, Error>>, one: Result<Assertion, Error>)
    ensures Accepted(outcomes + [one]) == Accepted(outcomes) + (if one.Ok? then [one.value] else [])
    ensures Errors(outcomes + [one]) == Errors(outcomes) + (if one.Err? then [one.error] else [])
  {
    if outcomes == [] {
      assert [] + [one] == [one] && [one][1..] == [];
    } else {
      assert (outcomes + [one])[0] == outcomes[0] && (outcomes + [one])[1..] == outcomes[1..] + [one];
      CollectOne(outcomes[1..], one);
    }
  }

  lemma {:induction false} CollectedFirst(outcomes: seq<Result<Assertion, Error>>)
    ensures Accepted(outcomes) != [] ==> exists k: nat :: FirstValid(outcomes, k) && outcomes[k] == Ok(Accepted(outcomes)[0])
    ensures Accepted(outcomes) == [] ==> forall i :: 0 <= i < |outcomes| ==> outcomes[i].Err?
    ensures Accepted(outcomes) == [] && outcomes != [] ==> Errors(outcomes) != [] && outcomes[0] == Err(Errors(outcomes)[0])
    ensures outcomes == [] ==> Errors(outcomes) == []
  {
    if outcomes != [] {
      CollectedFirst(outcomes[1..]);
      if outcomes[0].Ok? {
        assert FirstValid(outcomes, 0);
      } else if Accepted(outcomes[1..]) != [] {
        var k: nat :| FirstValid(outcomes[1..], k) && outcomes[1..][k] == Ok(Accepted(outcomes[1..])[0]);
        assert FirstValid(outcomes, k + 1);
      }
    }
  }

  // ---------------------------------------------------------------- provenance

  /** One step into the content of an element. */
  datatype Move = ToChild(i: nat) | Decrypting

  function Follow(p: Provider, x: Located, moves: seq<Move>): Option<Located>
    decreases |moves|
  {
    if moves == [] then Some(x)
    else
      match moves[0]
      case ToChild(i) =>
        if !x.el.Element? || i >= |x.el.child| || SubContext(x.ctx, x.el.attrs).Err? then None
        else Follow(p, Located(SubContext(x.ctx, x.el.attrs).value, x.el.child[i]), moves[1..])
      case Decrypting =>
        match p.decrypt(x)
        case None => None
        case Some(plain) => Follow(p, Located(DEFAULT_CONTEXT, plain), moves[1..])
  }

  /** The assertion was read from inside `x`, perhaps after decryption, and is valid. */
  ghost predicate ReadInside(p: Provider, x: Located, a: Assertion, c: Circumstances) {
    Valid(p, a, c) && exists moves ::
      Follow(p, x, moves).Some? && p.readAssertion(Follow(p, x, moves).value) == Some(a)
  }

  /** The assertion was read from inside content that a signature check returned, for an element that is
      inside the message `x`. */
  ghost predicate ReadFromVerified(p: Provider, x: Located, a: Assertion, c: Circumstances) {
    exists moves ::
      && Follow(p, x, moves).Some?
      && VerifySignature(p, Follow(p, x, moves).value).Ok?
      && ReadInside(p, VerifySignature(p, Follow(p, x, moves).value).value, a, c)
  }

  lemma {:induction false} FollowOn(p: Provider, x: Located, s: seq<Move>, t: seq<Move>)
    requires Follow(p, x, s).Some?
    ensures Follow(p, x, s + t) == Follow(p, Follow(p, x, s).value, t)
    decreases |s|
  {
    if s == [] {
      assert [] + t == t;
    } else {
      assert (s + t)[0] == s[0] && (s + t)[1..] == s[1..] + t;
      match s[0]
      case ToChild(i) => FollowOn(p, Located(SubContext(x.ctx, x.el.attrs).value, x.el.child[i]), s[1..], t);
      case Decrypting => FollowOn(p, Located(DEFAULT_CONTEXT, p.decrypt(x).value), s[1..], t);
    }
  }

  lemma InsideFurther(p: Provider, x: Located, s: seq<Move>, y: Located, a: Assertion, c: Circumstances)
    requires Follow(p, x, s) == Some(y)
    ensures ReadInside(p, y, a, c) ==> ReadInside(p, x, a, c)
    ensures ReadFromVerified(p, y, a, c) ==> ReadFromVerified(p, x, a, c)
  {
    hide Follow, VerifySignature;
    if ReadInside(p, y, a, c) {
      var t :| Follow(p, y, t).Some? && p.readAssertion(Follow(p, y, t).value) == Some(a);
      FollowOn(p, x, s, t);
      assert Follow(p, x, s + t).Some?;
    }
    if ReadFromVerified(p, y, a, c) {
      var t :| && Follow(p, y, t).Some? && VerifySignature(p, Follow(p, y, t).value).Ok?
               && ReadInside(p, VerifySignature(p, Follow(p, y, t).value).value, a, c);
      FollowOn(p, x, s, t);
      assert Follow(p, x, s + t).Some?;
    }
  }

  /** A child that was found is one step inside. */
  lemma {:induction false} FoundInside(inner: Result<Context, NsError>, ns: seq<Node>, namespace: string, tag: Name, y: Located)
    requires ChildrenFrom(inner, ns, namespace, tag).Ok? && y in ChildrenFrom(inner, ns, namespace, tag).value
    ensures inner.Ok? && y.ctx == inner.value && exists i :: 0 <= i < |ns| && ns[i] == y.el
  {
    hide Matches;
    var rest := ChildrenFrom(inner, ns[1..], namespace, tag);
    if y in rest.value {
      FoundInside(inner, ns[1..], namespace, tag, y);
      var i :| 0 <= i < |ns[1..]| && ns[1..][i] == y.el;
      assert ns[i + 1] == y.el;
    } else {
      MatchHasContext(inner, ns[0], namespace, tag);
      assert ns[0] == y.el;
    }
  }

  lemma ChildInside(p: Provider, x: Located, namespace: string, tag: Name, y: Located) returns (moves: seq<Move>)
    requires ChildrenOf(x, namespace, tag).Ok? && y in ChildrenOf(x, namespace, tag).value
    ensures Follow(p, x, moves) == Some(y)
  {
    var inner := SubContext(x.ctx, x.el.attrs);
    FoundInside(inner, x.el.child, namespace, tag, y);
    var i :| 0 <= i < |x.el.child| && x.el.child[i] == y.el;
    moves := [ToChild(i)];
    assert moves[1..] == [];
  }

  lemma AssertionProvenance(p: Provider, x: Located, c: Circumstances, required: bool)
    requires ParseAssertion(p, x, c, required).Ok?
    ensures var a := ParseAssertion(p, x, c, required).value;
            if required then ReadFromVerified(p, x, a, c) else ReadInside(p, x, a, c)
  {
    hide VerifySignature;
    var a := ParseAssertion(p, x, c, required).value;
    var source := if required then VerifySignature(p, x).value else x;
    assert Follow(p, source, []) == Some(source) && Follow(p, x, []) == Some(x);
    assert p.readAssertion(Follow(p, source, []).value) == Some(a);
  }

  lemma EncryptedProvenance(p: Provider, x: Located, c: Circumstances, required: bool)
    requires ParseEncrypted(p, x, c, required).Ok?
    ensures var a := ParseEncrypted(p, x, c, required).value;
            if required then ReadFromVerified(p, x, a, c) else ReadInside(p, x, a, c)
  {
    var plain := Located(DEFAULT_CONTEXT, p.decrypt(x).value);
    AssertionProvenance(p, plain, c, required);
    assert [Decrypting][1..] == [];
    assert Follow(p, x, [Decrypting]) == Some(plain);
    InsideFurther(p, x, [Decrypting], plain, ParseEncrypted(p, x, c, required).value, c);
  }

  lemma CandidateProvenance(p: Provider, x: Located, c: Circumstances, required: bool, k: nat)
    requires Candidates(p, x, c, required).Ok? && k < |Candidates(p, x, c, required).value|
    requires Candidates(p, x, c, required).value[k].Ok?
    ensures var a := Candidates(p, x, c, required).value[k].value;
            if required then ReadFromVerified(p, x, a, c) else ReadInside(p, x, a, c)
  {
    hide ParseAssertion, ParseEncrypted, ReadFromVerified, ReadInside, ChildrenOf, Follow;
    var a := Candidates(p, x, c, required).value[k].value;
    var encrypted := ChildrenOf(x, ASSERTION_NAMESPACE, "EncryptedAssertion").value;
    var plain := ChildrenOf(x, ASSERTION_NAMESPACE, "Assertion").value;
    var y, moves;
    if k < |encrypted| {
      y := encrypted[k];
      moves := ChildInside(p, x, ASSERTION_NAMESPACE, "EncryptedAssertion", y);
      EncryptedProvenance(p, y, c, required);
    } else {
      y := plain[k - |encrypted|];
      moves := ChildInside(p, x, ASSERTION_NAMESPACE, "Assertion", y);
      AssertionProvenance(p, y, c, required);
    }
    InsideFurther(p, x, moves, y, a, c);
  }

  /** Whatever `parseResponse` returns was read from inside verified content, when a signature is
      required, and from inside the given element in any case. */
  lemma ResponseProvenance(p: Provider, x: Located, c: Circumstances, required: bool, r: Result<Assertion, Error>)
    requires ResponseResult(p, x, c, required, r) && r.Ok?
    ensures if required then ReadFromVerified(p, x, r.value, c) else ReadInside(p, x, r.value, c)
  {
    hide ReadInside, ReadFromVerified, Candidates, VerifySignature, Left, EnvelopeOk;
    if required && VerifySignature(p, x) == Err(SignatureAbsent) {
      AbsentLeaves(p, x);
    }
    var (content, each) := Envelope(p, x, c, required).value;
    var candidates := Candidates(p, content, c, each).value;
    var k: nat :| FirstValid(candidates, k) && candidates[k] == r;
    CandidateProvenance(p, content, c, each, k);
    if required && !each {
      ReadHere(p, x, content, r.value, c);
    }
  }

  lemma AbsentLeaves(p: Provider, x: Located)
    requires VerifySignature(p, x) == Err(SignatureAbsent)
    ensures Left(p, x) == x
  {
    hide ChildrenOf, WithoutKeyInfo;
  }

  lemma ReadHere(p: Provider, x: Located, content: Located, a: Assertion, c: Circumstances)
    requires VerifySignature(p, x) == Ok(content) && ReadInside(p, content, a, c)
    ensures ReadFromVerified(p, x, a, c)
  {
    hide ReadInside, VerifySignature;
    assert Follow(p, x, []) == Some(x);
  }

  /** What holds of every assertion that is returned: it is of the identity provider and not too old, some bearer
      confirmation answers a known request at the right address in time, and its conditions hold now and name this
      service provider. */
  lemma ReturnedAssertion(p: Provider, x: Located, c: Circumstances, required: bool, r: Result<Assertion, Error>)
    requires ResponseResult(p, x, c, required, r) && r.Ok?
    ensures var a := r.value;
            && c.now <= a.issueInstant + p.limits.issueDelay
            && a.issuer == p.sp.idpEntityID
            && a.subject.Some?
            && (exists s :: && s in a.subject.value
                            && s.confirmationMethod == "urn:oasis:names:tc:SAML:2.0:cm:bearer" && s.data.Some?
                            && ((p.sp.allowIDPInitiated && s.data.value.inResponseTo == "")
                                || s.data.value.inResponseTo in c.ids)
                            && s.data.value.recipient == p.sp.acsURL
                            && c.now <= s.data.value.notOnOrAfter + p.limits.clockSkew)
            && a.conditions.Some?
            && a.conditions.value.notBefore - p.limits.clockSkew <= c.now
            && c.now <= a.conditions.value.notOnOrAfter + p.limits.clockSkew
            && a.conditions.value.audienceRestrictions != []
            && (forall names :: names in a.conditions.value.audienceRestrictions ==>
                  (if p.sp.entityID == "" then p.sp.metadataURL else p.sp.entityID) in names)
  {
    ReturnedValid(p, x, c, required, r);
    var s :| s in r.value.subject.value && ConfirmationOk(p.sp, p.limits, s, c.ids, c.now);
  }

  lemma ReturnedValid(p: Provider, x: Located, c: Circumstances, required: bool, r: Result<Assertion, Error>)
    requires ResponseResult(p, x, c, required, r) && r.Ok?
    ensures Valid(p, r.value, c)
  {
    hide Valid, ResponseResult, VerifySignature, Follow;
    ResponseProvenance(p, x, c, required, r);
  }

  // ---------------------------------------------------------------- artifacts

  /** What `parseArtifactResponse` goes on with: the Response, and whether it needs a signature. */
  function ArtifactEnvelope(p: Provider, x: Located, c: Circumstances, requestID: string): Result<(Located, bool), Error> {
    var verified := VerifySignature(p, x);
    var content := if verified.Ok? then verified.value else Left(p, x);
    var response := p.readArtifactResponse(content);
    if response.None? then Err(Unreadable)
    else if response.value.inResponseTo != requestID
         || response.value.issueInstant + p.limits.issueDelay < c.now
         || (response.value.issuer.Some? && response.value.issuer.value != p.sp.idpEntityID)
         || !response.value.success then Err(BadEnvelope)
    else if verified.Err? && verified.error != SignatureAbsent then Err(verified.error)
    else
      var inner :- OneChild(content, PROTOCOL_NAMESPACE, "Response");
      Ok((inner, verified.Err?))
  }

  /** The envelope of an artifact response is in order if and only if there is no signature that fails, and each of its
      attributes is as it has to be, and there is one Response in it. */
  lemma ArtifactEnvelopeExactly(p: Provider, x: Located, c: Circumstances, requestID: string)
    ensures var verified := VerifySignature(p, x);
            var content := if verified.Ok? then verified.value else x;
            var responses := ChildrenOf(content, "urn:oasis:names:tc:SAML:2.0:protocol", "Response");
            var envelope := ArtifactEnvelope(p, x, c, requestID);
            && (envelope.Ok? ==> responses.Ok? && |responses.value| == 1 && envelope.value == (responses.value[0], verified.Err?))
            && (envelope.Ok? <==>
                  && (verified.Ok? || verified == Err(SignatureAbsent))
                  && p.readArtifactResponse(content).Some? && var response := p.readArtifactResponse(content).value;
                  && response.success && response.inResponseTo == requestID
                  && c.now <= response.issueInstant + p.limits.issueDelay
                  && (response.issuer.Some? ==> response.issuer.value == p.sp.idpEntityID)
                  && responses.Ok? && |responses.value| == 1)
  {
    hide VerifySignature, Left, ChildrenOf;
    if VerifySignature(p, x) == Err(SignatureAbsent) {
      AbsentLeaves(p, x);
    }
  }

  /** `parseArtifactResponse`. */
  method ParseArtifactResponse(p: Provider, x: Located, c: Circumstances, requestID: string)
    returns (r: Result<Assertion, Error>)
    ensures var envelope := ArtifactEnvelope(p, x, c, requestID);
            if envelope.Err? then r == Err(envelope.error)
            else ResponseResult(p, envelope.value.0, c, envelope.value.1, r)
    ensures r.Ok? ==> ReadFromVerified(p, x, r.value, c)
    ensures r.Ok? ==>
              var verified := VerifySignature(p, x);
              var content := if verified.Ok? then verified.value else x;
              var responses := ChildrenOf(content, "urn:oasis:names:tc:SAML:2.0:protocol", "Response");
              && (verified.Ok? || verified == Err(SignatureAbsent))
              && p.readArtifactResponse(content).Some? && var response := p.readArtifactResponse(content).value;
              && response.success && response.inResponseTo == requestID
              && c.now <= response.issueInstant + p.limits.issueDelay
              && (response.issuer.Some? ==> response.issuer.value == p.sp.idpEntityID)
              && responses.Ok? && |responses.value| == 1
              && ResponseResult(p, responses.value[0], c, verified.Err?, r)
  {
    ArtifactEnvelopeExactly(p, x, c, requestID);
    hide ResponseResult, ReadFromVerified, ReadInside, ArtifactEnvelope;
    var envelope := ArtifactEnvelope(p, x, c, requestID);
    if envelope.Err? {
      return Err(envelope.error);
    }
    r := ParseResponse(p, envelope.value.0, c, envelope.value.1);
    if r.Ok? {
      ArtifactProvenance(p, x, c, requestID, r);
    }
  }

  lemma ArtifactProvenance(p: Provider, x: Located, c: Circumstances, requestID: string, r: Result<Assertion, Error>)
    requires ArtifactEnvelope(p, x, c, requestID).Ok?
    requires ResponseResult(p, ArtifactEnvelope(p, x, c, requestID).value.0, c, ArtifactEnvelope(p, x, c, requestID).value.1, r)
    requires r.Ok?
    ensures ReadFromVerified(p, x, r.value, c)
  {
    hide ResponseResult, ReadFromVerified, ReadInside, VerifySignature, Left, ChildrenOf;
    var (inner, required) := ArtifactEnvelope(p, x, c, requestID).value;
    var verified := VerifySignature(p, x);
    if verified.Err? {
      AbsentLeaves(p, x);
    }
    var content := if verified.Ok? then verified.value else x;
    ResponseProvenance(p, inner, c, required, r);
    var moves := ChildInside(p, content, PROTOCOL_NAMESPACE, "Response", inner);
    InsideFurther(p, content, moves, inner, r.value, c);
    if verified.Ok? {
      ReadHere(p, x, content, r.value, c);
    }
  }
}
