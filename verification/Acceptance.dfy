/** The checks that a service provider makes of an assertion (service_provider.go), and the assertion
    that the identity provider makes (identity_provider.go). Times are whole nanoseconds. */
module Acceptance {
  import opened Wrappers

  const BEARER := "urn:oasis:names:tc:SAML:2.0:cm:bearer"

  datatype ConfirmationData = ConfirmationData(inResponseTo: string, recipient: string, notOnOrAfter: int)

  datatype SubjectConfirmation = SubjectConfirmation(confirmationMethod: string, data: Option<ConfirmationData>)

  datatype Conditions = Conditions(notBefore: int, notOnOrAfter: int, audienceRestrictions: seq<seq<string>>)

  /** `subject` and `conditions` may be absent. */
  datatype Assertion = Assertion(
    issueInstant: int, issuer: string, nameID: string,
    subject: Option<seq<SubjectConfirmation>>, conditions: Option<Conditions>)

  /** MaxIssueDelay and MaxClockSkew. */
  datatype Limits = Limits(issueDelay: nat, clockSkew: nat)

  /** The configuration of a service provider with the default hooks. */
  datatype ServiceProvider = ServiceProvider(
    entityID: string, metadataURL: string, acsURL: string, idpEntityID: string, allowIDPInitiated: bool)

  function FirstSet(a: string, b: string): string {
    if a == "" then b else a
  }

  function Audience(sp: ServiceProvider): string {
    FirstSet(sp.entityID, sp.metadataURL)
  }

  predicate Tracked(sp: ServiceProvider, ids: seq<string>, inResponseTo: string) {
    (sp.allowIDPInitiated && inResponseTo == "") || inResponseTo in ids
  }

  predicate ConfirmationOk(sp: ServiceProvider, limits: Limits, c: SubjectConfirmation, ids: seq<string>, now: int) {
    && c.confirmationMethod == BEARER && c.data.Some?
    && Tracked(sp, ids, c.data.value.inResponseTo)
    && c.data.value.recipient == sp.acsURL
    && now <= c.data.value.notOnOrAfter + limits.clockSkew
  }

  /** What an assertion has to be to pass `validateAssertion`. */
  ghost predicate Acceptable(sp: ServiceProvider, limits: Limits, a: Assertion, ids: seq<string>, now: int) {
    && now <= a.issueInstant + limits.issueDelay
    && a.issuer == sp.idpEntityID
    && a.subject.Some? && (exists c :: c in a.subject.value && ConfirmationOk(sp, limits, c, ids, now))
    && a.conditions.Some? && var conditions := a.conditions.value;
    && conditions.notBefore - limits.clockSkew <= now <= conditions.notOnOrAfter + limits.clockSkew
    && conditions.audienceRestrictions != []
    && (forall r :: r in conditions.audienceRestrictions ==> Audience(sp) in r)
  }

  datatype Failure = Expired | WrongIssuer | Unconfirmed(causes: seq<Cause>) | NotYetValid | ConditionsExpired | WrongAudience

  datatype Cause = NoData | UnknownRequest | WrongRecipient | ConfirmationExpired

  function BearerFailure(sp: ServiceProvider, limits: Limits, c: SubjectConfirmation, ids: seq<string>, now: int): Option<Cause> {
    if c.data.None? then Some(NoData)
    else
      var data := c.data.value;
      if (!sp.allowIDPInitiated || data.inResponseTo != "") && data.inResponseTo !in ids then Some(UnknownRequest)
      else if data.recipient != sp.acsURL then Some(WrongRecipient)
      else if data.notOnOrAfter + limits.clockSkew < now then Some(ConfirmationExpired)
      else None
  }

  /** `validateSubjectConfirmations`: one bearer confirmation has to be in order. Otherwise each cause is
      reported once, and there is none if and only if there is no bearer confirmation. */
  method ValidateSubjectConfirmations(sp: ServiceProvider, limits: Limits, a: Assertion, ids: seq<string>, now: int)
    returns (failure: Option<Failure>)
    ensures failure.None? <==>
              a.subject.Some? && exists c :: c in a.subject.value && ConfirmationOk(sp, limits, c, ids, now)
    ensures failure.None? <==>
              && a.subject.Some?
              && exists c :: c in a.subject.value
                   && c.confirmationMethod == "urn:oasis:names:tc:SAML:2.0:cm:bearer" && c.data.Some?
                   && ((sp.allowIDPInitiated && c.data.value.inResponseTo == "") || c.data.value.inResponseTo in ids)
                   && c.data.value.recipient == sp.acsURL
                   && now <= c.data.value.notOnOrAfter + limits.clockSkew
    ensures failure.Some? ==>
              && failure.value.Unconfirmed?
              && (forall cause :: cause in failure.value.causes <==>
                    a.subject.Some? && exists c :: c in a.subject.value && c.confirmationMethod == BEARER
                                                && BearerFailure(sp, limits, c, ids, now) == Some(cause))
              && forall i, j :: 0 <= i < j < |failure.value.causes| ==> failure.value.causes[i] != failure.value.causes[j]
  {
    if a.subject.None? {
      return Some(Unconfirmed([]));
    }
    var confirmations := a.subject.value;
    var failures: seq<Cause> := [];
    for k := 0 to |confirmations|
      invariant forall c :: c in confirmations[..k] ==> !ConfirmationOk(sp, limits, c, ids, now)
      invariant forall cause :: cause in failures <==>
                  exists c :: c in confirmations[..k] && c.confirmationMethod == BEARER
                           && BearerFailure(sp, limits, c, ids, now) == Some(cause)
      invariant forall i, j :: 0 <= i < j < |failures| ==> failures[i] != failures[j]
    {
      var c := confirmations[k];
      assert forall x :: x in confirmations[..k + 1] <==> x in confirmations[..k] || x == c;
      if c.confirmationMethod != BEARER {
        continue;
      }
      var err := BearerFailure(sp, limits, c, ids, now);
      if err.None? {
        assert c in confirmations && ConfirmationOk(sp, limits, c, ids, now);
        return None;
      }
      if err.value !in failures {
        failures := failures + [err.value];
      }
    }
    assert confirmations[..|confirmations|] == confirmations;
    failure := Some(Unconfirmed(failures));
  }

  /** `validateAudienceRestriction`. */
  method ValidateAudienceRestriction(sp: ServiceProvider, a: Assertion) returns (ok: bool)
    ensures ok <==>
              && a.conditions.Some? && a.conditions.value.audienceRestrictions != []
              && forall r :: r in a.conditions.value.audienceRestrictions ==>
                   (if sp.entityID == "" then sp.metadataURL else sp.entityID) in r
  {
    if a.conditions.None? || |a.conditions.value.audienceRestrictions| == 0 {
      return false;
    }
    var restrictions := a.conditions.value.audienceRestrictions;
    for k := 0 to |restrictions|
      invariant forall r :: r in restrictions[..k] ==> Audience(sp) in r
    {
      assert forall x :: x in restrictions[..k + 1] <==> x in restrictions[..k] || x == restrictions[k];
      if Audience(sp) !in restrictions[k] {
        assert restrictions[k] in restrictions;
        return false;
      }
    }
    assert restrictions[..|restrictions|] == restrictions;
    ok := true;
  }

  /** `validateAssertion`. */
  method ValidateAssertion(sp: ServiceProvider, limits: Limits, a: Assertion, ids: seq<string>, now: int)
    returns (failure: Option<Failure>)
    ensures failure.None? <==> Acceptable(sp, limits, a, ids, now)
  {
    if a.issueInstant + limits.issueDelay < now {
      return Some(Expired);
    }
    if a.issuer != sp.idpEntityID {
      return Some(WrongIssuer);
    }
    var unconfirmed := ValidateSubjectConfirmations(sp, limits, a, ids, now);
    if unconfirmed.Some? {
      return unconfirmed;
    }
    if a.conditions.Some? {
      if a.conditions.value.notBefore - limits.clockSkew > now {
        return Some(NotYetValid);
      }
      if a.conditions.value.notOnOrAfter + limits.clockSkew < now {
        return Some(ConditionsExpired);
      }
    }
    var ok := ValidateAudienceRestriction(sp, a);
    failure := if ok then None else Some(WrongAudience);
  }

  // ---------------------------------------------------------------- the identity provider's side

  /** What `DefaultAssertionMaker.MakeAssertion` takes from the request and the session. */
  datatype IdpRequest = IdpRequest(
    now: int, id: string, acsLocation: string, idpEntityID: string, spEntityID: string, nameID: string)

  function MakeAssertion(req: IdpRequest, limits: Limits, issueInstant: int): Assertion {
    Assertion(
      issueInstant, req.idpEntityID, req.nameID,
      Some([SubjectConfirmation(BEARER, Some(ConfirmationData(req.id, req.acsLocation, req.now + limits.issueDelay)))]),
      Some(Conditions(req.now - limits.clockSkew, req.now + limits.issueDelay, [[req.spEntityID]])))
  }

  function Min(a: int, b: int): int {
    if a < b then a else b
  }

  /** A service provider accepts what an identity provider makes if and only if they agree on who they are
      and where the response goes, the request is known, and the clock is in this window. */
  lemma AcceptanceWindow(req: IdpRequest, limits: Limits, issueInstant: int, sp: ServiceProvider, ids: seq<string>, now: int)
    ensures Acceptable(sp, limits, MakeAssertion(req, limits, issueInstant), ids, now) <==>
              && req.idpEntityID == sp.idpEntityID
              && req.spEntityID == (if sp.entityID == "" then sp.metadataURL else sp.entityID)
              && req.acsLocation == sp.acsURL
              && ((sp.allowIDPInitiated && req.id == "") || req.id in ids)
              && req.now - 2 * limits.clockSkew <= now
              && now <= Min(issueInstant + limits.issueDelay, req.now + limits.issueDelay + limits.clockSkew)
  {
    var a := MakeAssertion(req, limits, issueInstant);
    var c := a.subject.value[0];
    assert a.subject.value == [c];
    assert (exists d :: d in a.subject.value && ConfirmationOk(sp, limits, d, ids, now)) <==> ConfirmationOk(sp, limits, c, ids, now);
    assert a.conditions.value.audienceRestrictions == [[req.spEntityID]];
    assert (forall r :: r in a.conditions.value.audienceRestrictions ==> Audience(sp) in r) <==> Audience(sp) in [req.spEntityID] by {
      assert [req.spEntityID] in a.conditions.value.audienceRestrictions;
    }
  }
}
