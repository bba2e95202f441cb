/**
 Administering language-model providers and the one route that uses them. Every write
 is guarded by the row's revision; a catalogue test reads a row, talks to the network
 without any lock and comes back with what it read.
 */
module LlmRouting {
  import opened Base

  datatype Kind = Bedrock | Hosted(name: string)

  datatype Source = NoCredential | FromEnvironment | Stored

  datatype Catalog = Untested | Verified | Failed(error: string)

  datatype Secret = Secret(ciphertext: string, fingerprint: string)

  datatype Provider = Provider(
    kind: Kind, enabled: bool, approved: bool, source: Source, environmentName: Option<string>,
    ciphertext: Option<string>, fingerprint: Option<string>, credentialRevision: int, revision: int,
    catalog: Catalog, verifiedRevision: Option<int>)

  datatype RouteState = Draft | Active | Disabled

  /** What an administrator chooses for the route. */
  datatype Settings = Settings(
    model: string, protocol: string, region: string, profile: string, maxTokens: int, qualityApproved: bool)

  datatype Route = Route(
    provider: int, settings: Settings, state: RouteState, active: bool, credentialRevision: int, revision: int)

  datatype State = State(providers: map<int, Provider>, route: Route)

  /** Fixed tables of the deployment. */
  datatype Platform = Platform(
    environmentKeys: Kind -> seq<string>, protocols: Kind -> set<string>,
    bedrockApproved: (string, string, string) -> bool)

  datatype Outcome = Done | Refused(status: int)

  /** `keyringReady` and `sealed` are how encrypting the new key went. */
  datatype ProviderUpdate = ProviderUpdate(
    enabled: bool, approved: bool, source: Source, environmentName: Option<string>, key: Option<string>,
    keyringReady: bool, sealed: Option<Secret>)

  // ------------------------------------------------------------ provider writes

  function Deactivated(route: Route, provider: int): Route {
    if route.provider == provider && route.active
    then route.(active := false, state := Disabled, revision := route.revision + 1)
    else route
  }

  /** The environment variable an update would use, or nothing if it may not. */
  function EnvironmentChoice(platform: Platform, p: Provider, body: ProviderUpdate): Option<Option<string>> {
    var allowed := platform.environmentKeys(p.kind);
    if body.source == FromEnvironment then
      var name := if body.environmentName.Some? && body.environmentName.value != "" then body.environmentName
                  else if allowed != [] then Some(allowed[0])
                  else None;
      if name.Some? && name.value in allowed then Some(name) else None
    else if body.environmentName.Some? then None
    else Some(None)
  }

  predicate ChangesCredential(p: Provider, body: ProviderUpdate, name: Option<string>) {
    body.source != p.source || body.key.Some? || name != p.environmentName
  }

  function Rekeyed(p: Provider, body: ProviderUpdate): Provider {
    var secret := if body.source == Stored && body.key.Some? then body.sealed else None;
    p.(credentialRevision := p.credentialRevision + 1, catalog := Untested, verifiedRevision := None,
       ciphertext := if secret.Some? then Some(secret.value.ciphertext) else None,
       fingerprint := if secret.Some? then Some(secret.value.fingerprint) else None,
       source := body.source)
  }

  /** Why an update is turned down, in the order the checks are made. */
  function UpdateRefusal(platform: Platform, p: Provider, body: ProviderUpdate, expected: int): Option<int> {
    var choice := EnvironmentChoice(platform, p, body);
    if p.revision != expected then Some(412)
    else if choice.None? then Some(422)
    else if p.kind == Bedrock && body.source != NoCredential then Some(422)
    else if body.source == Stored && body.key.None? && p.source != Stored then Some(422)
    else if body.source == Stored && body.key.Some? && !body.keyringReady then Some(503)
    else if body.source == Stored && body.key.Some? && body.sealed.None? then Some(422)
    else None
  }

  function Updated(platform: Platform, s: State, id: int, body: ProviderUpdate, expected: int): State {
    if id !in s.providers || UpdateRefusal(platform, s.providers[id], body, expected).Some? then s
    else
      var p := s.providers[id];
      var name := EnvironmentChoice(platform, p, body).value;
      var changed := ChangesCredential(p, body, name);
      var kept := p.(enabled := body.enabled, approved := body.approved,
                     environmentName := if body.source == FromEnvironment then name else None);
      var q := if changed then Rekeyed(kept, body) else kept;
      State(s.providers[id := q.(revision := p.revision + 1)],
            if changed || !body.enabled || !body.approved then Deactivated(s.route, id) else s.route)
  }

  function CredentialDeleted(s: State, id: int, expected: int): State {
    if id !in s.providers || s.providers[id].revision != expected then s
    else
      var p := s.providers[id];
      State(s.providers[id := p.(source := NoCredential, environmentName := None, ciphertext := None,
                                 fingerprint := None, credentialRevision := p.credentialRevision + 1,
                                 catalog := Untested, verifiedRevision := None, revision := p.revision + 1)],
            Deactivated(s.route, id))
  }

  // ------------------------------------------------------------ catalogue tests

  /** What a test remembers of the row it started from. */
  datatype Ticket = Ticket(provider: int, revision: int, credentialRevision: int)

  predicate Stale(s: State, t: Ticket) {
    || t.provider !in s.providers
    || s.providers[t.provider].revision != t.revision
    || s.providers[t.provider].credentialRevision != t.credentialRevision
  }

  /** The variable now holds another key than the one verified before. */
  predicate Rotated(p: Provider, verdict: Catalog, fingerprint: Option<string>) {
    && verdict == Verified && fingerprint.Some? && p.source == FromEnvironment
    && p.fingerprint.Some? && p.fingerprint != fingerprint
  }

  function Tested(s: State, t: Ticket, verdict: Catalog, fingerprint: Option<string>): State {
    if Stale(s, t) then s
    else
      var p := s.providers[t.provider];
      var rotated := Rotated(p, verdict, fingerprint);
      var revision := if rotated then p.credentialRevision + 1 else p.credentialRevision;
      State(s.providers[t.provider := p.(
              credentialRevision := revision, catalog := verdict,
              verifiedRevision := if verdict == Verified then Some(revision) else None,
              fingerprint := if verdict == Verified then fingerprint else p.fingerprint,
              revision := p.revision + 1)],
            if rotated then Deactivated(s.route, t.provider) else s.route)
  }

  // ------------------------------------------------------------ the route

  datatype Blocker =
    | ProviderDisabled | CredentialNotVerified | DataPolicyNotApproved | CatalogNotVerified | MaxTokensInvalid
    | QualityNotApproved | ModelMissing | ProtocolNotSupported | RegionMissing | GeographicProfileNotApproved

  function When(condition: bool, blocker: Blocker): seq<Blocker> {
    if condition then [blocker] else []
  }

  /** `current` is the fingerprint of the key that would be used now. */
  function Blockers(platform: Platform, route: Route, p: Provider, current: Option<string>): seq<Blocker> {
    var chosen := route.settings;
    When(!p.enabled, ProviderDisabled)
    + When(p.kind != Bedrock && (p.fingerprint.None? || current != p.fingerprint), CredentialNotVerified)
    + When(!p.approved, DataPolicyNotApproved)
    + When(p.catalog != Verified || p.verifiedRevision != Some(p.credentialRevision), CatalogNotVerified)
    + When(!(1 <= chosen.maxTokens <= 1024), MaxTokensInvalid)
    + When(!chosen.qualityApproved, QualityNotApproved)
    + When(chosen.model == "", ModelMissing)
    + When(chosen.protocol !in platform.protocols(p.kind), ProtocolNotSupported)
    + When(p.kind == Bedrock && chosen.region == "", RegionMissing)
    + When(p.kind == Bedrock && chosen.region != "" && chosen.model != ""
           && !platform.bedrockApproved(chosen.model, chosen.region, chosen.profile), GeographicProfileNotApproved)
  }

  predicate Ready(platform: Platform, route: Route, p: Provider, current: Option<string>) {
    Blockers(platform, route, p, current) == []
  }

  predicate MeetsRequirements(platform: Platform, route: Route, p: Provider, current: Option<string>) {
    var chosen := route.settings;
    && p.enabled && p.approved
    && p.catalog == Verified && p.verifiedRevision == Some(p.credentialRevision)
    && (p.kind != Bedrock ==> p.fingerprint.Some? && current == p.fingerprint)
    && 1 <= chosen.maxTokens <= 1024 && chosen.qualityApproved && chosen.model != ""
    && chosen.protocol in platform.protocols(p.kind)
    && (p.kind == Bedrock ==>
          chosen.region != "" && platform.bedrockApproved(chosen.model, chosen.region, chosen.profile))
  }

  /** A route is ready exactly when every single requirement holds. */
  lemma ReadyMeans(platform: Platform, route: Route, p: Provider, current: Option<string>)
    ensures Ready(platform, route, p, current) <==> MeetsRequirements(platform, route, p, current)
  {
  }

  function Saved(s: State, provider: int, settings: Settings, expected: int): State {
    if provider !in s.providers || s.route.revision != expected then s
    else
      s.(route := Route(provider, settings, Draft, false, s.providers[provider].credentialRevision,
                        s.route.revision + 1))
  }

  /** `hint` is the provider the route had when it was first read, without a lock. */
  function ActivationRefusal(
    platform: Platform, s: State, hint: int, expected: int, activate: bool, feesAcknowledged: bool,
    current: Option<string>): Option<int>
  {
    if hint !in s.providers then Some(404)
    else if s.route.provider != hint then Some(409)
    else if s.route.revision != expected then Some(412)
    else if activate && !feesAcknowledged then Some(422)
    else if activate && !Ready(platform, s.route, s.providers[hint], current) then Some(409)
    else None
  }

  function ActiveSet(
    platform: Platform, s: State, hint: int, expected: int, activate: bool, feesAcknowledged: bool,
    current: Option<string>): State
  {
    if ActivationRefusal(platform, s, hint, expected, activate, feesAcknowledged, current).Some? then s
    else if activate then
      s.(route := s.route.(state := Active, active := true, revision := s.route.revision + 1,
                           credentialRevision := s.providers[hint].credentialRevision))
    else s.(route := s.route.(state := Disabled, active := false, revision := s.route.revision + 1))
  }

  // ------------------------------------------------------------ what accepted writes mean

  /** What an administrator may ask of a provider row, with no order among the conditions. */
  predicate UpdateAllowed(platform: Platform, p: Provider, body: ProviderUpdate, expected: int) {
    var keys := platform.environmentKeys(p.kind);
    && p.revision == expected
    && (body.source == FromEnvironment ==>
          keys != [] && (body.environmentName.Some? && body.environmentName.value != "" ==>
                           body.environmentName.value in keys))
    && (body.source != FromEnvironment ==> body.environmentName.None?)
    && (p.kind == Bedrock ==> body.source == NoCredential)
    && (body.source == Stored ==>
          && (body.key.Some? || p.source == Stored)
          && (body.key.Some? ==> body.keyringReady && body.sealed.Some?))
  }

  lemma UpdateAllowedExactly(platform: Platform, p: Provider, body: ProviderUpdate, expected: int)
    ensures UpdateRefusal(platform, p, body, expected).None? <==> UpdateAllowed(platform, p, body, expected)
  {
  }

  /** Same source, same variable and no new key: the credential is the one the row had. */
  predicate SameCredential(p: Provider, body: ProviderUpdate, q: Provider) {
    q.source == p.source && body.key.None? && q.environmentName == p.environmentName
  }

  /**
   Row `q` is row `p` after the update: it has what was asked for, names a variable
   the deployment knows just when it uses one, and keeps the credential revision, the
   key and the catalogue verdict exactly when the credential is the same.
   */
  predicate Applies(platform: Platform, p: Provider, body: ProviderUpdate, q: Provider) {
    && q.kind == p.kind && q.enabled == body.enabled && q.approved == body.approved && q.source == body.source
    && q.revision == p.revision + 1
    && (q.environmentName.Some? <==> q.source == FromEnvironment)
    && (q.source == FromEnvironment ==> q.environmentName.value in platform.environmentKeys(q.kind))
    && (q.source == FromEnvironment && body.environmentName.Some? && body.environmentName.value != "" ==>
          q.environmentName == body.environmentName)
    && if SameCredential(p, body, q) then
         && q.credentialRevision == p.credentialRevision && q.ciphertext == p.ciphertext
         && q.fingerprint == p.fingerprint && q.catalog == p.catalog && q.verifiedRevision == p.verifiedRevision
       else
         && q.credentialRevision == p.credentialRevision + 1 && q.catalog == Untested && q.verifiedRevision.None?
         && (q.ciphertext.Some? <==> q.source == Stored && body.key.Some?)
         && (q.fingerprint.Some? <==> q.ciphertext.Some?)
         && (q.ciphertext.Some? ==>
               body.sealed == Some(Secret(q.ciphertext.value, q.fingerprint.value)))
  }

  /**
   An accepted update changes its own row as asked and no other, and switches the
   route off exactly when the route runs on this provider and the provider lost its
   credential, its approval or its being enabled.
   */
  lemma UpdateApplies(platform: Platform, s: State, id: int, body: ProviderUpdate, expected: int)
    requires id in s.providers && UpdateAllowed(platform, s.providers[id], body, expected)
    ensures var after := Updated(platform, s, id, body, expected);
            var p := s.providers[id];
            && after.providers.Keys == s.providers.Keys
            && Applies(platform, p, body, after.providers[id])
            && (forall other :: other in s.providers && other != id ==> after.providers[other] == s.providers[other])
            && var lost := !body.enabled || !body.approved || !SameCredential(p, body, after.providers[id]);
               && (after.route.active <==> s.route.active && !(s.route.provider == id && lost))
               && (after.route.active == s.route.active ==> after.route == s.route)
  {
    UpdateAllowedExactly(platform, s.providers[id], body, expected);
  }

  /** Switching on needs the fees acknowledged and every requirement of a ready route; switching off only the current row. */
  predicate SwitchAllowed(
    platform: Platform, s: State, hint: int, expected: int, activate: bool, feesAcknowledged: bool,
    current: Option<string>)
  {
    && hint in s.providers && s.route.provider == hint && s.route.revision == expected
    && (activate ==> feesAcknowledged && MeetsRequirements(platform, s.route, s.providers[hint], current))
  }

  lemma SwitchAllowedExactly(
    platform: Platform, s: State, hint: int, expected: int, activate: bool, feesAcknowledged: bool,
    current: Option<string>)
    ensures ActivationRefusal(platform, s, hint, expected, activate, feesAcknowledged, current).None?
       <==> SwitchAllowed(platform, s, hint, expected, activate, feesAcknowledged, current)
  {
    if hint in s.providers {
      ReadyMeans(platform, s.route, s.providers[hint], current);
    }
  }

  // ------------------------------------------------------------ the operations

  class Operations {
    const platform: Platform
    var providers: map<int, Provider>
    var route: Route

    constructor (platform: Platform, providers: map<int, Provider>, route: Route)
      ensures this.platform == platform && Now() == State(providers, route)
    {
      this.platform, this.providers, this.route := platform, providers, route;
    }

    function Now(): State
      reads this
    {
      State(providers, route)
    }

    method DeactivateRoutes(provider: int)
      modifies this`route
      ensures route == Deactivated(old(route), provider)
    {
      if route.provider == provider && route.active {
        route := route.(active := false, state := Disabled, revision := route.revision + 1);
      }
    }

    /** The environment variable of an update, if it is one the deployment knows. */
    method ChooseVariable(row: Provider, body: ProviderUpdate) returns (valid: bool, name: Option<string>)
      ensures EnvironmentChoice(platform, row, body) == if valid then Some(name) else None
    {
      var allowed := platform.environmentKeys(row.kind);
      valid, name := true, body.environmentName;
      if body.source == FromEnvironment {
        if name.None? || name.value == "" {
          name := if allowed != [] then Some(allowed[0]) else None;
        }
        valid := name.Some? && name.value in allowed;
      } else if name.Some? {
        valid := false;
      }
    }

    /** A new credential revision; nothing if the new key cannot be sealed. */
    method ReplaceCredential(row: Provider, body: ProviderUpdate) returns (replaced: Option<Provider>)
      ensures replaced == if body.source == Stored && body.key.Some? && body.sealed.None? then None
                          else Some(Rekeyed(row, body))
    {
      var p := row.(credentialRevision := row.credentialRevision + 1, catalog := Untested, verifiedRevision := None);
      if body.source == Stored && body.key.Some? {
        if body.sealed.None? {
          return None;
        }
        p := p.(ciphertext := Some(body.sealed.value.ciphertext), fingerprint := Some(body.sealed.value.fingerprint));
      } else {
        p := p.(ciphertext := None, fingerprint := None);
      }
      replaced := Some(p.(source := body.source));
    }

    /** The provider update, check by check. */
    method ApplyUpdate(id: int, body: ProviderUpdate, expected: int) returns (outcome: Outcome)
      modifies this
      ensures Now() == Updated(platform, old(Now()), id, body, expected)
      ensures outcome ==
                if id !in old(providers) then Refused(404)
                else var refusal := UpdateRefusal(platform, old(providers)[id], body, expected);
                     if refusal.Some? then Refused(refusal.value) else Done
    {
      if id !in providers {
        return Refused(404);
      }
      var row := providers[id];
      if row.revision != expected {
        return Refused(412);
      }
      var valid, name := ChooseVariable(row, body);
      if !valid {
        return Refused(422);
      }
      if row.kind == Bedrock && body.source != NoCredential {
        return Refused(422);
      }
      var changed := body.source != row.source || body.key.Some? || name != row.environmentName;
      if body.source == Stored && body.key.None? && row.source != Stored {
        return Refused(422);
      }
      if body.source == Stored && body.key.Some? && !body.keyringReady {
        return Refused(503);
      }
      row := row.(enabled := body.enabled, approved := body.approved,
                  environmentName := if body.source == FromEnvironment then name else None);
      if changed {
        var kept := ReplaceCredential(row, body);
        if kept.None? {
          return Refused(422);
        }
        row := kept.value;
      }
      if changed || !body.enabled || !body.approved {
        DeactivateRoutes(id);
      }
      row := row.(revision := row.revision + 1);
      providers := providers[id := row];
      outcome := Done;
    }

    /**
     The same, as the administrator sees it: done exactly when allowed, and then the
     row is the old one with what was asked for; a refusal changes nothing.
     */
    method UpdateProvider(id: int, body: ProviderUpdate, expected: int) returns (outcome: Outcome)
      modifies this
      ensures Now() == Updated(platform, old(Now()), id, body, expected)
      ensures outcome ==
                if id !in old(providers) then Refused(404)
                else var refusal := UpdateRefusal(platform, old(providers)[id], body, expected);
                     if refusal.Some? then Refused(refusal.value) else Done
      ensures outcome == Done <==>
                id in old(providers) && UpdateAllowed(platform, old(providers)[id], body, expected)
      ensures outcome == Done ==>
                && id in providers && Applies(platform, old(providers)[id], body, providers[id])
                && (forall other :: other in providers && other != id ==>
                      other in old(providers) && providers[other] == old(providers)[other])
      ensures outcome.Refused? ==> Now() == old(Now())
    {
      ghost var before := Now();
      outcome := ApplyUpdate(id, body, expected);
      if id in before.providers {
        UpdateAllowedExactly(platform, before.providers[id], body, expected);
        if outcome == Done {
          UpdateApplies(platform, before, id, body, expected);
        }
      }
    }

    method DeleteCredential(id: int, expected: int) returns (outcome: Outcome)
      modifies this
      ensures Now() == CredentialDeleted(old(Now()), id, expected)
      ensures outcome == if id !in old(providers) then Refused(404)
                         else if old(providers)[id].revision != expected then Refused(412) else Done
      ensures outcome == Done ==>
                && id in providers && providers.Keys == old(providers).Keys
                && (forall other :: other in providers && other != id ==> providers[other] == old(providers)[other])
                && var p, q := old(providers)[id], providers[id];
                   && q.source == NoCredential && q.ciphertext.None? && q.fingerprint.None? && q.environmentName.None?
                   && q.catalog == Untested && q.verifiedRevision.None?
                   && q.credentialRevision == p.credentialRevision + 1 && q.revision == p.revision + 1
                   && q.kind == p.kind && q.enabled == p.enabled && q.approved == p.approved
                   && (route.active <==> old(route).active && old(route).provider != id)
      ensures outcome != Done ==> Now() == old(Now())
    {
      if id !in providers {
        return Refused(404);
      }
      var row := providers[id];
      if row.revision != expected {
        return Refused(412);
      }
      row := row.(source := NoCredential, environmentName := None, ciphertext := None, fingerprint := None);
      row := row.(credentialRevision := row.credentialRevision + 1, catalog := Untested, verifiedRevision := None);
      row := row.(revision := row.revision + 1);
      providers := providers[id := row];
      DeactivateRoutes(id);
      outcome := Done;
    }

    /** Before the network call. */
    method BeginTest(id: int, expected: int) returns (ticket: Option<Ticket>)
      ensures ticket.Some? <==> id in providers && providers[id].revision == expected
      ensures ticket.Some? ==> ticket.value == Ticket(id, expected, providers[id].credentialRevision)
    {
      ticket := None;
      if id in providers && providers[id].revision == expected {
        ticket := Some(Ticket(id, expected, providers[id].credentialRevision));
      }
    }

    /** After it. */
    method FinishTest(t: Ticket, verdict: Catalog, fingerprint: Option<string>) returns (outcome: Outcome)
      modifies this
      ensures Now() == Tested(old(Now()), t, verdict, fingerprint)
      ensures outcome == if Stale(old(Now()), t) then Refused(409) else Done
      ensures outcome == Done ==>
                && t.provider in old(providers) && t.provider in providers
                && var p, q := old(providers)[t.provider], providers[t.provider];
                   && p.revision == t.revision && p.credentialRevision == t.credentialRevision
                   && q.catalog == verdict && q.revision == p.revision + 1
                   && (q.verifiedRevision.Some? <==> verdict == Verified)
                   && (verdict == Verified ==> q.verifiedRevision == Some(q.credentialRevision) && q.fingerprint == fingerprint)
                   && (verdict != Verified ==> q.fingerprint == p.fingerprint)
                   && (q.credentialRevision == p.credentialRevision + 1 <==>
                         verdict == Verified && p.source == FromEnvironment && fingerprint.Some?
                         && p.fingerprint.Some? && p.fingerprint != fingerprint)
                   && q.source == p.source && q.ciphertext == p.ciphertext && q.environmentName == p.environmentName
                   && q.enabled == p.enabled && q.approved == p.approved && q.kind == p.kind
                   && (route.active <==>
                         old(route).active && !(old(route).provider == t.provider
                                                && q.credentialRevision == p.credentialRevision + 1))
      ensures outcome != Done ==> Now() == old(Now())
    {
      if Stale(Now(), t) {
        return Refused(409);
      }
      var row := providers[t.provider];
      var revision := t.credentialRevision;
      if Rotated(row, verdict, fingerprint) {
        row := row.(credentialRevision := row.credentialRevision + 1);
        revision := row.credentialRevision;
        DeactivateRoutes(t.provider);
      }
      row := row.(catalog := verdict, verifiedRevision := if verdict == Verified then Some(revision) else None);
      if verdict == Verified {
        row := row.(fingerprint := fingerprint);
      }
      row := row.(revision := row.revision + 1);
      providers := providers[t.provider := row];
      outcome := Done;
    }

    method SaveRoute(provider: int, settings: Settings, expected: int) returns (outcome: Outcome)
      modifies this`route
      ensures Now() == Saved(old(Now()), provider, settings, expected)
      ensures outcome == if provider !in providers then Refused(404)
                         else if old(route).revision != expected then Refused(412) else Done
      ensures outcome == Done ==>
                && provider in providers
                && route.provider == provider && route.settings == settings
                && route.state == Draft && !route.active
                && route.credentialRevision == providers[provider].credentialRevision
                && route.revision == old(route).revision + 1
      ensures outcome != Done ==> route == old(route)
    {
      if provider !in providers {
        return Refused(404);
      }
      if route.revision != expected {
        return Refused(412);
      }
      route := route.(provider := provider, settings := settings, state := Draft, active := false);
      route := route.(credentialRevision := providers[provider].credentialRevision, revision := route.revision + 1);
      outcome := Done;
    }

    /** Switching the route on or off, check by check; a refusal changes nothing. */
    method SetRouteActive(hint: int, expected: int, activate: bool, feesAcknowledged: bool, current: Option<string>)
      returns (outcome: Outcome)
      modifies this`route
      ensures Now() == ActiveSet(platform, old(Now()), hint, expected, activate, feesAcknowledged, current)
      ensures outcome ==
                var refusal := ActivationRefusal(platform, old(Now()), hint, expected, activate, feesAcknowledged, current);
                if refusal.Some? then Refused(refusal.value) else Done
      ensures outcome == Done <==>
                SwitchAllowed(platform, old(Now()), hint, expected, activate, feesAcknowledged, current)
      ensures outcome == Done ==>
                && route.active == activate && route.revision == old(route).revision + 1
                && route.state == (if activate then Active else Disabled)
                && (activate ==> hint in providers && route.credentialRevision == providers[hint].credentialRevision)
                && route.settings == old(route).settings && route.provider == old(route).provider
      ensures outcome.Refused? ==> route == old(route)
    {
      SwitchAllowedExactly(platform, Now(), hint, expected, activate, feesAcknowledged, current);
      if hint !in providers {
        return Refused(404);
      }
      if route.provider != hint {
        return Refused(409);
      }
      if route.revision != expected {
        return Refused(412);
      }
      if activate {
        if !feesAcknowledged {
          return Refused(422);
        }
        var blockers := Blockers(platform, route, providers[hint], current);
        if blockers != [] {
          return Refused(409);
        }
        route := route.(state := Active, active := true, credentialRevision := providers[hint].credentialRevision);
      } else {
        route := route.(state := Disabled, active := false);
      }
      route := route.(revision := route.revision + 1);
      outcome := Done;
    }
  }

  // ------------------------------------------------------------ runs

  datatype Action =
    | Update(id: int, body: ProviderUpdate, expected: int)
    | Delete(id: int, expected: int)
    | Finish(ticket: Ticket, verdict: Catalog, fingerprint: Option<string>)
    | Save(provider: int, settings: Settings, expected: int)
    | Switch(hint: int, expected: int, activate: bool, feesAcknowledged: bool, current: Option<string>)

  function Next(platform: Platform, s: State, a: Action): State {
    match a
    case Update(id, body, expected) => Updated(platform, s, id, body, expected)
    case Delete(id, expected) => CredentialDeleted(s, id, expected)
    case Finish(t, verdict, fingerprint) => Tested(s, t, verdict, fingerprint)
    case Save(provider, settings, expected) => Saved(s, provider, settings, expected)
    case Switch(hint, expected, activate, fees, current) =>
      ActiveSet(platform, s, hint, expected, activate, fees, current)
  }

  function After(platform: Platform, s: State, run: seq<Action>): State {
    if run == [] then s
    else Next(platform, After(platform, s, run[..|run| - 1]), run[|run| - 1])
  }

  /** The route runs on an enabled, approved provider with the credential it was activated for. */
  predicate RouteSound(s: State) {
    && s.route.provider in s.providers
    && (s.route.active <==> s.route.state == Active)
    && (s.route.active ==>
          var p := s.providers[s.route.provider];
          p.enabled && p.approved && s.route.credentialRevision == p.credentialRevision)
  }

  /** A catalogue counts as verified exactly when the verified credential is the current one. */
  predicate CatalogSound(p: Provider) {
    p.catalog == Verified <==> p.verifiedRevision == Some(p.credentialRevision)
  }

  ghost predicate Sound(s: State) {
    RouteSound(s) && forall id :: id in s.providers ==> CatalogSound(s.providers[id])
  }

  lemma StepKeepsSound(platform: Platform, s: State, a: Action)
    requires Sound(s)
    ensures Sound(Next(platform, s, a))
  {
  }

  lemma {:induction false} RunKeepsSound(platform: Platform, s: State, run: seq<Action>)
    requires Sound(s)
    ensures Sound(After(platform, s, run))
  {
    if run != [] {
      RunKeepsSound(platform, s, run[..|run| - 1]);
      StepKeepsSound(platform, After(platform, s, run[..|run| - 1]), run[|run| - 1]);
    }
  }

  /** A stored key is there, a variable is one the deployment knows, and nothing is left of either otherwise. */
  predicate KeySound(platform: Platform, p: Provider) {
    && (p.ciphertext.Some? <==> p.source == Stored)
    && (p.environmentName.Some? <==> p.source == FromEnvironment)
    && (p.source == FromEnvironment ==> p.environmentName.value in platform.environmentKeys(p.kind))
    && (p.kind == Bedrock ==> p.source == NoCredential)
  }

  ghost predicate KeysSound(platform: Platform, s: State) {
    forall id :: id in s.providers ==> KeySound(platform, s.providers[id])
  }

  lemma UpdateKeepsKeysSound(platform: Platform, s: State, a: Action)
    requires KeysSound(platform, s) && a.Update?
    ensures KeysSound(platform, Next(platform, s, a))
  {
    if a.id in s.providers && UpdateAllowed(platform, s.providers[a.id], a.body, a.expected) {
      UpdateApplies(platform, s, a.id, a.body, a.expected);
    } else if a.id in s.providers {
      UpdateAllowedExactly(platform, s.providers[a.id], a.body, a.expected);
    }
  }

  /** No interleaving leaves a provider whose source and key material disagree. */
  lemma {:induction false} RunKeepsKeysSound(platform: Platform, s: State, run: seq<Action>)
    requires KeysSound(platform, s)
    ensures KeysSound(platform, After(platform, s, run))
  {
    if run != [] {
      var before, a := After(platform, s, run[..|run| - 1]), run[|run| - 1];
      RunKeepsKeysSound(platform, s, run[..|run| - 1]);
      if a.Update? {
        UpdateKeepsKeysSound(platform, before, a);
      }
    }
  }

  // ------------------------------------------------------------ optimistic concurrency

  /** A step either leaves a provider's row as it is or moves its revision on by one. */
  lemma StepMovesRevision(platform: Platform, s: State, a: Action, id: int)
    requires id in s.providers
    ensures var after := Next(platform, s, a);
            && id in after.providers
            && (after.providers[id] == s.providers[id]
                || after.providers[id].revision == s.providers[id].revision + 1)
            && (after.route == s.route || after.route.revision == s.route.revision + 1)
  {
  }

  /** So a row whose revision is what it was is the row it was, whatever happened meanwhile. */
  lemma {:induction false} SameRevisionSameRow(platform: Platform, s: State, run: seq<Action>, id: int)
    requires id in s.providers
    ensures var after := After(platform, s, run);
            && id in after.providers
            && after.providers[id].revision >= s.providers[id].revision
            && (after.providers[id].revision == s.providers[id].revision ==> after.providers[id] == s.providers[id])
            && after.route.revision >= s.route.revision
            && (after.route.revision == s.route.revision ==> after.route == s.route)
  {
    if run != [] {
      var front := run[..|run| - 1];
      SameRevisionSameRow(platform, s, front, id);
      StepMovesRevision(platform, After(platform, s, front), run[|run| - 1], id);
    }
  }

  /** A catalogue result is recorded only if the provider's row did not change during the network call. */
  lemma RecordedTestSawTheCurrentRow(platform: Platform, s: State, run: seq<Action>, t: Ticket)
    requires t.provider in s.providers
    requires t == Ticket(t.provider, s.providers[t.provider].revision, s.providers[t.provider].credentialRevision)
    ensures var after := After(platform, s, run);
            && t.provider in after.providers
            && (!Stale(after, t) <==> after.providers[t.provider] == s.providers[t.provider])
  {
    SameRevisionSameRow(platform, s, run, t.provider);
  }

  /** An accepted update, removal, save or switch was decided on the row it overwrites. */
  lemma AcceptedWriteSawTheCurrentRow(platform: Platform, s: State, run: seq<Action>, a: Action)
    requires a.Update? || a.Delete? ==> a.id in s.providers && a.expected == s.providers[a.id].revision
    requires a.Save? || a.Switch? ==> a.expected == s.route.revision
    requires !a.Finish? && s.route.provider in s.providers
    requires var after := After(platform, s, run); Next(platform, after, a) != after
    ensures var after := After(platform, s, run);
            && (a.Update? || a.Delete? ==> a.id in after.providers && after.providers[a.id] == s.providers[a.id])
            && (a.Save? || a.Switch? ==> after.route == s.route)
  {
    SameRevisionSameRow(platform, s, run, if a.Update? || a.Delete? then a.id else s.route.provider);
  }

  // ------------------------------------------------------------ what an active route rests on

  /** While its credential revision stands, a provider's key is the same key. */
  lemma StepKeepsKey(platform: Platform, s: State, a: Action, id: int)
    requires id in s.providers
    ensures var after := Next(platform, s, a).providers[id];
            && after.credentialRevision >= s.providers[id].credentialRevision
            && (after.credentialRevision == s.providers[id].credentialRevision ==>
                  && after.source == s.providers[id].source && after.ciphertext == s.providers[id].ciphertext
                  && (after.environmentName == s.providers[id].environmentName))
  {
  }

  /** The route in `now` was switched on in `then`, ready, and neither it nor the key has changed since. */
  ghost predicate SwitchedOn(platform: Platform, earlier: State, current: Option<string>, now: State) {
    && earlier.route.provider in earlier.providers && now.route.provider == earlier.route.provider
    && now.route.provider in now.providers
    && Ready(platform, earlier.route, earlier.providers[earlier.route.provider], current)
    && now.route.settings == earlier.route.settings
    && var p, q := earlier.providers[earlier.route.provider], now.providers[now.route.provider];
       && p.credentialRevision == q.credentialRevision == now.route.credentialRevision
       && p.source == q.source && p.ciphertext == q.ciphertext && p.environmentName == q.environmentName
  }

  ghost predicate SwitchedOnDuring(platform: Platform, s: State, run: seq<Action>, k: nat)
    requires k < |run|
  {
    && run[k].Switch? && run[k].activate && run[k].feesAcknowledged
    && SwitchedOn(platform, After(platform, s, run[..k]), run[k].current, After(platform, s, run))
  }

  lemma StepKeepsSwitchedOn(platform: Platform, earlier: State, current: Option<string>, now: State, a: Action)
    requires Sound(now) && now.route.active && Next(platform, now, a).route.active
    requires SwitchedOn(platform, earlier, current, now)
    requires !a.Switch?
    ensures SwitchedOn(platform, earlier, current, Next(platform, now, a))
  {
  }

  /**
   Every active route was switched on by an administrator who acknowledged the fees,
   at a moment when it was ready, and still has the settings, the provider and the
   key it had then.
   */
  lemma {:induction false} ActiveRouteWasReady(platform: Platform, s: State, run: seq<Action>)
    requires Sound(s) && !s.route.active && After(platform, s, run).route.active
    ensures exists k :: 0 <= k < |run| && SwitchedOnDuring(platform, s, run, k)
    decreases |run|
  {
    var last := |run| - 1;
    var front, a := run[..last], run[last];
    var before := After(platform, s, front);
    RunKeepsSound(platform, s, front);
    RunKeepsSound(platform, s, run);
    if a.Switch? && Next(platform, before, a) != before {
      assert SwitchedOn(platform, before, a.current, After(platform, s, run));
      assert SwitchedOnDuring(platform, s, run, last);
    } else {
      ActiveRouteWasReady(platform, s, front);
      var k :| 0 <= k < |front| && SwitchedOnDuring(platform, s, front, k);
      assert front[..k] == run[..k] && front[k] == run[k];
      if Next(platform, before, a) != before {
        StepKeepsSwitchedOn(platform, After(platform, s, run[..k]), run[k].current, before, a);
      }
      assert SwitchedOnDuring(platform, s, run, k);
    }
  }

  /**
   An active route need not stay ready: a failed test is recorded and the route stays
   on. Only a test that finds a rotated environment key switches it off.
   */
  lemma TestSwitchesOffExactlyOnRotation(
    platform: Platform, s: State, t: Ticket, verdict: Catalog, fingerprint: Option<string>, current: Option<string>)
    requires Sound(s) && s.route.active && t.provider == s.route.provider && !Stale(s, t)
    ensures var after := Tested(s, t, verdict, fingerprint);
            && (!after.route.active <==> Rotated(s.providers[t.provider], verdict, fingerprint))
            && (verdict != Verified ==>
                  after.route.active && !Ready(platform, after.route, after.providers[t.provider], current))
  {
  }

  /**
   Exactly when a test leaves an active, ready route active and ready: it succeeds,
   finds no rotated key, and for a provider that needs a key, the key it used is the
   one in use now.
   */
  lemma RouteStaysReadyExactly(
    platform: Platform, s: State, t: Ticket, verdict: Catalog, fingerprint: Option<string>,
    before: Option<string>, current: Option<string>)
    requires Sound(s) && s.route.active && t.provider == s.route.provider && !Stale(s, t)
    requires Ready(platform, s.route, s.providers[t.provider], before)
    ensures (var after := Tested(s, t, verdict, fingerprint);
             after.route.active && Ready(platform, after.route, after.providers[t.provider], current))
       <==> (var p := s.providers[t.provider];
             && verdict == Verified && !Rotated(p, verdict, fingerprint)
             && (p.kind == Bedrock || (fingerprint.Some? && current == fingerprint)))
  {
    var after := Tested(s, t, verdict, fingerprint);
    ReadyMeans(platform, s.route, s.providers[t.provider], before);
    ReadyMeans(platform, after.route, after.providers[t.provider], current);
  }
}
