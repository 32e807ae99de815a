/**
 * What the sign-in handlers do, situation by situation: which tokens a session
 * goes on with, where each request leads and which cookies it leaves
 * (`packages/bff/src/bff.ts`).
 */
module SignInAnswers {
  import opened Wrappers
  import opened SessionStore
  import opened SignIn

  /* ------------------------------------------------------------ tokens */

  // A session with less than a minute left, which the provider could renew.
  predicate DueForRenewal(cfg: Config, s: Session, now: int) {
    s.accessExpiresAt <= now + 60_000 && s.kind == Oidc && cfg.hasProvider && s.refreshToken.Some? && s.refreshToken.value != ""
  }

  // The session with what the provider answered, and otherwise as it was.
  predicate CarriesAnswer(s: Session, r: Refresh, after: Session) {
    && r.Renewed?
    && after.accessToken == r.accessToken
    && after.accessExpiresAt == r.at + r.expiresInSeconds * 1000
    && after.refreshToken == (if r.refreshToken.Some? then r.refreshToken else s.refreshToken)
    && after.displayName == (if r.displayName.Some? then r.displayName else s.displayName)
    && after.id == s.id && after.tenantId == s.tenantId && after.userId == s.userId
    && after.createdAt == s.createdAt && after.kind == s.kind && after.visit == s.visit
  }

  // The store finds the session until that moment, and nothing of that name from then on.
  ghost predicate FoundUntil(shapes: Shapes, sessions: Sessions, s: Session, until: int) {
    forall t :: SessionAt(shapes, sessions, s.id, t) == if t < until then Some(s) else None
  }

  /**
   * A session good for more than a minute goes on as it is.  One that is due goes
   * on with every token the provider answered, and so does the store, for another
   * whole lifetime.  Any other is gone.
   */
  lemma RenewalDelivers(cfg: Config, shapes: Shapes, sessions: Sessions, s: Session, now: int, r: Refresh)
    requires Complete(shapes, s) && s.kind != Demo
    requires r.Renewed? ==> r.accessToken != ""
    ensures var (after, store) := RealSession(cfg, sessions, s, now, r);
            if s.accessExpiresAt > now + 60_000 then after == Some(s) && store == sessions
            else if DueForRenewal(cfg, s, now) && r.Renewed? then
              && after.Some? && CarriesAnswer(s, r, after.value)
              && FoundUntil(shapes, store, after.value, r.at + cfg.sessionTtlSeconds * 1000)
            else after == None && store == sessions - {s.id}
  {
    if r.Renewed? {
      StoredSessionReadsBack(shapes, WithTokens(s, r));
    }
  }

  /** A parked session is confirmed with the tokens the provider answers, whatever time it has left; a development one as long as it is good. */
  lemma ConfirmingDelivers(cfg: Config, shapes: Shapes, sessions: Sessions, s: Session, now: int, r: Refresh)
    requires Complete(shapes, s) && s.kind != Demo
    requires r.Renewed? ==> r.accessToken != ""
    ensures var (after, store) := Confirmed(cfg, sessions, s, now, r);
            if s.kind == Dev then after == (if s.accessExpiresAt > now + 60_000 then Some(s) else None) && store == sessions
            else if cfg.hasProvider && s.refreshToken.Some? && s.refreshToken.value != "" && r.Renewed? then
              && after.Some? && CarriesAnswer(s, r, after.value)
              && FoundUntil(shapes, store, after.value, r.at + cfg.sessionTtlSeconds * 1000)
            else after == None && store == sessions
  {
    if r.Renewed? {
      StoredSessionReadsBack(shapes, WithTokens(s, r));
    }
  }

  /** A demo cookie gets what the demo made of the visit: its session, or the real one it had parked, as that then reads. */
  lemma DemoCookieGetsItsVisit(cfg: Config, shapes: Shapes, sessions: Sessions, id: string, now: int, r: Refresh, visit: DemoVisit)
    requires id != "" && IsDemo(SessionAt(shapes, sessions, id, now))
    ensures var outcome := SessionFor(cfg, shapes, sessions, Some(id), now, r, visit);
            && (visit.Continues? ==> outcome == (Some(visit.session), visit.sessions))
            && (visit.Ended? && IsReal(visit.parked) ==> outcome == RealSession(cfg, visit.sessions, visit.parked.value, now, r))
            && (visit.Ended? && !IsReal(visit.parked) ==> outcome == (None, visit.sessions))
  {
    hide SessionAt, RealSession;
  }

  /* ------------------------------------------------------------ the callback */

  // The provider sent no error, and sent both a code and a state.
  predicate BringsCode(q: CallbackQuery) {
    q.error == "" && q.code != "" && q.state != ""
  }

  /**
   * Where the callback leads, for every query, state and provider's answer: each
   * of its answers is given in one situation only, told here without the order
   * in which the handler looks.
   */
  lemma CallbackLeads(cfg: Config, q: CallbackQuery, pending: bool, signedIn: bool, retry: bool, x: Exchange, target: string)
    ensures var r := Answer(cfg, RowFor(cfg, q, pending, signedIn, retry, x), x, target);
            var ready := BringsCode(q) && cfg.hasProvider;
            && (r == Redirect(SignInPage(cfg.landing), []) <==> q.error in {"login_required", "interaction_required"})
            && (r == Redirect(SignedOut(ByProvider), []) <==> q.error !in {"", "login_required", "interaction_required"})
            && (r == Redirect(SignedOut(Incomplete), []) <==> q.error == "" && !BringsCode(q))
            && (r == Redirect(SignedOut(NoProvider), []) <==> BringsCode(q) && !cfg.hasProvider)
            && (r == Redirect(Page(cfg.landing), [SetCookie(RetryCookie, "", 0)]) <==> ready && !pending && signedIn)
            && (r == Redirect(LoginRoute(cfg.landing), [SetCookie(RetryCookie, "1", 60)]) <==> ready && !pending && !signedIn && !retry)
            && (r == Redirect(SignedOut(Stale), [SetCookie(RetryCookie, "", 0)]) <==> ready && !pending && !signedIn && retry)
            && (r == Redirect(SignedOut(RefusedExchange), []) <==> ready && pending && x.ExchangeRefused?)
            && (r == Redirect(SignedOut(NoTenant), []) <==> ready && pending && x.Exchanged? && x.tenantId == "")
            && (r == ServerError <==> ready && pending && x.ExchangeFailed?)
            && (ready && pending && x.Exchanged? && x.tenantId != "" <==>
                  x.Exchanged? &&
                  r == Redirect(Page(target), [SetCookie(SessionCookie, x.sessionId, cfg.sessionTtlSeconds),
                                               SetCookie(RetryCookie, "", 0), SetCookie(ReentryCookie, "", 0)]))
  {
  }

  /** The session a sign-in stores carries what the provider answered, and is found for its whole lifetime. */
  lemma SignInStores(cfg: Config, shapes: Shapes, sessions: Sessions, x: Exchange, now: int)
    requires x.Exchanged? && x.sessionId != "" && x.accessToken != "" && x.tenantId != ""
    ensures var s := NewSession(x, now);
            && s.id == x.sessionId && s.accessToken == x.accessToken && s.refreshToken == x.refreshToken
            && s.accessExpiresAt == now + x.expiresInSeconds * 1000
            && s.tenantId == x.tenantId && s.userId == x.userId && s.displayName == x.displayName
            && s.createdAt == now && s.kind == Oidc && s.visit == None
            && FoundUntil(shapes, WithSession(sessions, s, now + cfg.sessionTtlSeconds * 1000), s, now + cfg.sessionTtlSeconds * 1000)
  {
    StoredSessionReadsBack(shapes, NewSession(x, now));
  }

  /* ------------------------------------------------------------ login */

  // The demo's own entrance: asked for, in a demo area, and not by somebody signing in to an account.
  predicate AtDemoEntrance(cfg: Config, q: LoginQuery) {
    !q.account && cfg.demoArea && q.demo
  }

  predicate OffersReentry(cfg: Config, q: LoginQuery, reentry: bool) {
    !q.account && cfg.demoArea && !q.demo && reentry
  }

  /** Where the login route leads, for every query, and that it forgets the offer exactly where an account is asked for. */
  lemma LoginLeads(cfg: Config, q: LoginQuery, reentry: bool, limited: bool, current: bool, target: string, state: string, verifier: string)
    ensures var r := LoginAnswer(cfg, q, LoginRowFor(cfg, q, reentry, limited, current), target, state, verifier);
            var elsewhere := !limited && !AtDemoEntrance(cfg, q) && !OffersReentry(cfg, q, reentry);
            var forgets := if q.account then [SetCookie(ReentryCookie, "", 0)] else [];
            && (r == TooMany <==> limited)
            && (r == Redirect(Page(target), []) <==> !limited && AtDemoEntrance(cfg, q) && current)
            && (r == Redirect(DemoPage(target), []) <==> !limited && AtDemoEntrance(cfg, q) && !current)
            && (!limited && OffersReentry(cfg, q, reentry) ==> r == Redirect(SignInPage(target), []))
            && (elsewhere && !cfg.hasProvider ==> r == Redirect(if cfg.devForm then SignInPage(target) else SignedOut(NoProvider), forgets))
            && (elsewhere && cfg.hasProvider ==> r == Redirect(Provider(state, verifier), forgets))
  {
  }

  /** A pending login is good for half an hour. */
  lemma PendingLoginLasts(pending: Pendings, state: string, login: PendingLogin, now: int, t: int)
    ensures Live(pending[state := Entry(login, now + PENDING_TTL_SECONDS * 1000)], state, t) ==
            if t < now + 30 * 60 * 1000 then Some(login) else None
  {
  }

  /* ------------------------------------------------------------ logout */

  /**
   * What signing out says: a demo visit says so, and whether the session it had
   * parked came back or had run out, in which case that is gone as well.
   */
  lemma LogoutSays(cfg: Config, shapes: Shapes, sessions: Sessions, sameOrigin: bool, cookie: Option<string>, now: int,
                   parked: Option<Session>, refresh: Refresh)
    ensures var (r, after) := LoggedOut(cfg, shapes, sessions, sameOrigin, cookie, now, parked, refresh);
            var demo := cookie.Some? && cookie.value != "" && IsDemo(SessionAt(shapes, sessions, cookie.value, now));
            var without := if demo then sessions - {SessionAt(shapes, sessions, cookie.value, now).value.id} else sessions;
            var back := demo && parked.Some? && Confirmed(cfg, without, parked.value, now, refresh).0.Some?;
            && (r == Forbidden <==> !sameOrigin)
            && (sameOrigin ==>
                  && r.Redirect?
                  && r.location == Goodbye(demo, back, demo && parked.Some? && !back)
                  && (demo && parked.Some? && !back ==> forall t :: SessionAt(shapes, after, parked.value.id, t) == None)
                  && SetCookie(ReentryCookie, "", 0) in r.cookies
                  && (!back ==> SetCookie(SessionCookie, "", 0) in r.cookies)
                  && (back ==> SetCookie(SessionCookie, Confirmed(cfg, without, parked.value, now, refresh).0.value.id, cfg.sessionTtlSeconds)
                               in r.cookies))
  {
    hide Decode, Confirmed;
  }
}
