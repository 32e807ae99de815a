/**
 * The sign-in handlers (`packages/bff/src/bff.ts`): login, the provider's
 * callback, reading a session, and logout.
 *
 * What other systems answer arrives as a parameter: the provider's token
 * answers, and what a demo visit's own handling does to the session store.
 */
module SignIn {
  import opened Wrappers
  import opened SessionStore

  /* ------------------------------------------------------------ responses */

  datatype CookieName = SessionCookie | RetryCookie | ReentryCookie

  // A `Set-Cookie` header; a Max-Age of zero clears.
  datatype SetCookie = SetCookie(name: CookieName, value: string, maxAgeSeconds: int)

  const RETRY_SECONDS: int := 60
  const PENDING_TTL_SECONDS: int := 1800

  function Cleared(name: CookieName): SetCookie {
    SetCookie(name, "", 0)
  }

  datatype Reason = Stale | Incomplete | ByProvider | RefusedExchange | NoTenant | NoProvider

  datatype Location =
    | Page(path: string)
    | SignInPage(redirectTo: string)
    | SignedOut(reason: Reason)
    | Goodbye(demo: bool, restored: bool, parkedExpired: bool)
    | LoginRoute(redirectTo: string)
    | DemoPage(redirectTo: string)
    | Provider(state: string, verifier: string)

  datatype Response =
    | Redirect(location: Location, cookies: seq<SetCookie>)
    | TooMany
    | Forbidden
    | ServerError

  datatype Config = Config(hasProvider: bool, devForm: bool, demoArea: bool, sessionTtlSeconds: int, landing: string)

  /* ------------------------------------------------------------ reading a session */

  // What the provider answers to a refresh.
  datatype Refresh =
    | RefreshRefused
    | Renewed(accessToken: string, refreshToken: Option<string>, expiresInSeconds: int, displayName: Option<string>, at: int)

  // What the demo's own handling makes of a visit: the store afterwards, and the
  // session it goes on with or leaves behind.
  datatype DemoVisit =
    | Continues(session: Session, sessions: Sessions)
    | Ended(parked: Option<Session>, sessions: Sessions)

  function WithTokens(s: Session, r: Refresh): Session
    requires r.Renewed?
  {
    s.(accessToken := r.accessToken,
       refreshToken := if r.refreshToken.Some? then r.refreshToken else s.refreshToken,
       accessExpiresAt := r.at + r.expiresInSeconds * 1000,
       displayName := if r.displayName.Some? then r.displayName else s.displayName)
  }

  predicate CanRefresh(cfg: Config, s: Session) {
    s.kind == Oidc && cfg.hasProvider && s.refreshToken.Some? && s.refreshToken.value != ""
  }

  // `realSessionFor`: the session, and the store afterwards.
  function RealSession(cfg: Config, sessions: Sessions, s: Session, now: int, refresh: Refresh): (Option<Session>, Sessions) {
    if !NeedsRefresh(s, now) then (Some(s), sessions)
    else if CanRefresh(cfg, s) && refresh.Renewed? then
      (Some(WithTokens(s, refresh)), WithSession(sessions, WithTokens(s, refresh), refresh.at + cfg.sessionTtlSeconds * 1000))
    else (None, sessions - {s.id})
  }

  // `demoSessionFor`.
  function DemoSession(cfg: Config, visit: DemoVisit, now: int, refresh: Refresh): (Option<Session>, Sessions) {
    match visit
    case Continues(session, sessions) => (Some(session), sessions)
    case Ended(parked, sessions) =>
      if IsReal(parked) then RealSession(cfg, sessions, parked.value, now, refresh) else (None, sessions)
  }

  // `sessionFor`.
  function SessionFor(cfg: Config, shapes: Shapes, sessions: Sessions, cookie: Option<string>, now: int,
                      refresh: Refresh, visit: DemoVisit): (Option<Session>, Sessions) {
    if cookie == None || cookie == Some("") then (None, sessions)
    else
      match SessionAt(shapes, sessions, cookie.value, now)
      case None => (None, sessions)
      case Some(s) => if s.kind == Demo then DemoSession(cfg, visit, now, refresh) else RealSession(cfg, sessions, s, now, refresh)
  }

  /**
   * A real session is handed on as the same person's, with its tokens renewed at
   * most; or it is gone from the store, and no later request finds it.  Nobody
   * else's session changes either way.
   */
  lemma RealSessionKeepsOrEnds(cfg: Config, shapes: Shapes, sessions: Sessions, s: Session, now: int, refresh: Refresh)
    requires Complete(shapes, s) && s.kind != Demo
    requires SessionAt(shapes, sessions, s.id, now) == Some(s)
    requires refresh.Renewed? ==> refresh.accessToken != "" && now <= refresh.at && cfg.sessionTtlSeconds > 0
    ensures var (after, store) := RealSession(cfg, sessions, s, now, refresh);
            && (after.Some? ==>
                  && after.value.(accessToken := s.accessToken, refreshToken := s.refreshToken,
                                  accessExpiresAt := s.accessExpiresAt, displayName := s.displayName) == s
                  && SessionAt(shapes, store, s.id, now) == after
                  && (after.value.accessExpiresAt > now + 60_000 || CanRefresh(cfg, s)))
            && (after == None ==> NeedsRefresh(s, now) && forall t :: SessionAt(shapes, store, s.id, t) == None)
            && (forall id, t :: id != s.id ==> SessionAt(shapes, store, id, t) == SessionAt(shapes, sessions, id, t))
  {
    if refresh.Renewed? {
      StoredSessionReadsBack(shapes, WithTokens(s, refresh));
    }
  }

  // The record a cookie names carries the cookie's id, as every record put in the store does.
  predicate NamesItself(shapes: Shapes, sessions: Sessions, id: string, now: int) {
    var s := SessionAt(shapes, sessions, id, now);
    s.Some? ==> s.value.id == id
  }

  // The same person's session, with other tokens at most.
  predicate SamePerson(s: Session, other: Session) {
    other.(accessToken := s.accessToken, refreshToken := s.refreshToken,
           accessExpiresAt := s.accessExpiresAt, displayName := s.displayName) == s
  }

  /**
   * A cookie that names nothing gets nothing and changes nothing.  One that names
   * a real session gets that person's, as the store now has it, or nothing, and
   * then never again; no other session changes.
   */
  lemma CookieGetsItsOwnSession(cfg: Config, shapes: Shapes, sessions: Sessions, cookie: Option<string>, now: int,
                                refresh: Refresh, visit: DemoVisit)
    requires cookie.Some? ==> NamesItself(shapes, sessions, cookie.value, now)
    requires refresh.Renewed? ==> refresh.accessToken != "" && now <= refresh.at && cfg.sessionTtlSeconds > 0
    ensures var stored := if cookie.Some? && cookie.value != "" then SessionAt(shapes, sessions, cookie.value, now) else None;
            var (s, after) := SessionFor(cfg, shapes, sessions, cookie, now, refresh, visit);
            && (stored == None ==> s == None && after == sessions)
            && (IsReal(stored) ==>
                  && (s.Some? ==> SamePerson(stored.value, s.value) && SessionAt(shapes, after, cookie.value, now) == s)
                  && (s == None ==> forall t :: SessionAt(shapes, after, cookie.value, t) == None)
                  && (forall id, t :: id != cookie.value ==> SessionAt(shapes, after, id, t) == SessionAt(shapes, sessions, id, t)))
  {
    hide Decode, RealSession;
    if cookie.Some? && cookie.value != "" {
      var stored := SessionAt(shapes, sessions, cookie.value, now);
      if IsReal(stored) {
        StoredIsComplete(shapes, sessions, cookie.value, now);
        RealSessionKeepsOrEnds(cfg, shapes, sessions, stored.value, now, refresh);
      }
    }
  }

  lemma StoredIsComplete(shapes: Shapes, sessions: Sessions, id: string, now: int)
    ensures SessionAt(shapes, sessions, id, now).Some? ==> Complete(shapes, SessionAt(shapes, sessions, id, now).value)
  {
    if SessionAt(shapes, sessions, id, now).Some? {
      DecodedIsComplete(shapes, Live(sessions, id, now).value);
    }
  }

  /** Reading again what was just read and is good for a while gives the same, asks nobody and changes nothing. */
  lemma ReadingAgainChangesNothing(cfg: Config, shapes: Shapes, sessions: Sessions, cookie: Option<string>, now: int,
                                   refresh: Refresh, visit: DemoVisit, refresh': Refresh, visit': DemoVisit)
    requires cookie.Some? ==> NamesItself(shapes, sessions, cookie.value, now)
    requires refresh.Renewed? ==> refresh.accessToken != "" && now <= refresh.at && cfg.sessionTtlSeconds > 0
    requires cookie.Some? && cookie.value != "" && IsReal(SessionAt(shapes, sessions, cookie.value, now))
    requires var s := SessionFor(cfg, shapes, sessions, cookie, now, refresh, visit).0; s.Some? && !NeedsRefresh(s.value, now)
    ensures var (s, after) := SessionFor(cfg, shapes, sessions, cookie, now, refresh, visit);
            SessionFor(cfg, shapes, after, cookie, now, refresh', visit') == (s, after)
  {
    CookieGetsItsOwnSession(cfg, shapes, sessions, cookie, now, refresh, visit);
    var (s, after) := SessionFor(cfg, shapes, sessions, cookie, now, refresh, visit);
    assert SessionAt(shapes, after, cookie.value, now) == s && s.value.kind != Demo;
    hide SessionAt, WithSession, WithTokens;
  }

  /* ------------------------------------------------------------ the callback */

  // The query; an absent parameter reads as an empty one.
  datatype CallbackQuery = CallbackQuery(error: string, code: string, state: string)

  // What the token endpoint answers to a code.
  datatype Exchange =
    | ExchangeRefused
    | ExchangeFailed
    | Exchanged(sessionId: string, accessToken: string, refreshToken: Option<string>, expiresInSeconds: int,
                tenantId: string, userId: Option<string>, displayName: Option<string>)

  // The rows of the callback's table; `CX` is an error nobody expected.
  datatype Row = C1 | C2 | C3 | C4 | C5 | C6 | C7 | C8 | C9 | CX

  datatype Visitor = Visitor(session: Option<string>, retry: Option<string>)

  // `createSession` for a provider sign-in.
  function NewSession(x: Exchange, now: int): Session
    requires x.Exchanged?
  {
    Session(x.sessionId, x.accessToken, x.refreshToken, now + x.expiresInSeconds * 1000, x.tenantId, x.userId, x.displayName,
            now, Oidc, None)
  }

  predicate LoginRequired(q: CallbackQuery) {
    q.error == "login_required" || q.error == "interaction_required"
  }

  // The state is spent: the callback gets as far as taking the pending login.
  predicate TakesPending(cfg: Config, q: CallbackQuery) {
    q.error == "" && q.code != "" && q.state != "" && cfg.hasProvider
  }

  // Which row answers, given the pending login taken, whether a real session is
  // there, whether the marker came along, and the provider's answer.
  function RowFor(cfg: Config, q: CallbackQuery, pending: bool, signedIn: bool, retry: bool, x: Exchange): Row {
    if LoginRequired(q) then C1
    else if q.error != "" then C2
    else if q.code == "" || q.state == "" then C3
    else if !cfg.hasProvider then C4
    else if !pending then (if signedIn then C5 else if retry then C7 else C6)
    else if x.ExchangeRefused? || (x.Exchanged? && x.tenantId == "") then C8
    else if x.ExchangeFailed? then CX
    else C9
  }

  // Where the table says each row leads, and what it sets.
  function Answer(cfg: Config, row: Row, x: Exchange, target: string): Response {
    match row
    case C1 => Redirect(SignInPage(cfg.landing), [])
    case C2 => Redirect(SignedOut(ByProvider), [])
    case C3 => Redirect(SignedOut(Incomplete), [])
    case C4 => Redirect(SignedOut(NoProvider), [])
    case C5 => Redirect(Page(cfg.landing), [Cleared(RetryCookie)])
    case C6 => Redirect(LoginRoute(cfg.landing), [SetCookie(RetryCookie, "1", RETRY_SECONDS)])
    case C7 => Redirect(SignedOut(Stale), [Cleared(RetryCookie)])
    case C8 => Redirect(SignedOut(if x.Exchanged? then NoTenant else RefusedExchange), [])
    case C9 =>
      Redirect(Page(target),
               [SetCookie(SessionCookie, if x.Exchanged? then x.sessionId else "", cfg.sessionTtlSeconds),
                Cleared(RetryCookie), Cleared(ReentryCookie)])
    case CX => ServerError
  }

  // The store once the replaced demo is revoked.
  function WithoutReplacedDemo(shapes: Shapes, sessions: Sessions, cookie: Option<string>, now: int): Sessions {
    if cookie == None || cookie == Some("") then sessions
    else
      var previous := SessionAt(shapes, sessions, cookie.value, now);
      if IsDemo(previous) then sessions - {previous.value.id} else sessions
  }

  class Bff {
    const cfg: Config
    const store: MemorySessionStore
    // `safeRedirectTarget` towards this app's landing page
    const safe: string -> string

    constructor (cfg: Config, store: MemorySessionStore, safe: string -> string)
      ensures this.cfg == cfg && this.store == store && this.safe == safe
    {
      this.cfg := cfg;
      this.store := store;
      this.safe := safe;
    }

    method ReadRealSession(s: Session, now: int, refresh: Refresh) returns (after: Option<Session>)
      modifies store`sessions
      ensures (after, store.sessions) == RealSession(cfg, old(store.sessions), s, now, refresh)
    {
      if !NeedsRefresh(s, now) {
        return Some(s);
      }
      if s.kind != Oidc || !cfg.hasProvider || s.refreshToken == None || s.refreshToken == Some("") {
        store.Delete(s.id);
        return None;
      }
      match refresh {
        case Renewed(_, _, _, _, at) =>
          var refreshed := WithTokens(s, refresh);
          store.Put(refreshed, cfg.sessionTtlSeconds, at);
          return Some(refreshed);
        case RefreshRefused =>
          store.Delete(s.id);
          return None;
      }
    }

    method ReadSession(cookie: Option<string>, now: int, refresh: Refresh, visit: DemoVisit) returns (s: Option<Session>)
      modifies store`sessions
      ensures (s, store.sessions) == SessionFor(cfg, store.shapes, old(store.sessions), cookie, now, refresh, visit)
    {
      if cookie == None || cookie == Some("") {
        return None;
      }
      var found := store.Get(cookie.value, now);
      if found == None {
        return None;
      }
      if found.value.kind != Demo {
        s := ReadRealSession(found.value, now, refresh);
        return;
      }
      store.sessions := visit.sessions;
      match visit {
        case Continues(session, _) => return Some(session);
        case Ended(parked, _) =>
          if IsReal(parked) {
            s := ReadRealSession(parked.value, now, refresh);
          } else {
            return None;
          }
      }
    }

    method RevokeReplacedDemo(cookie: Option<string>, now: int)
      modifies store`sessions
      ensures store.sessions == WithoutReplacedDemo(store.shapes, old(store.sessions), cookie, now)
    {
      if cookie == None || cookie == Some("") {
        return;
      }
      var previous := store.Get(cookie.value, now);
      if IsDemo(previous) {
        store.Delete(previous.value.id);
      }
    }

    /** `callback`. */
    method Callback(q: CallbackQuery, visitor: Visitor, now: int, refresh: Refresh, visit: DemoVisit, x: Exchange)
      returns (row: Row, response: Response)
      modifies store
      // the table, on what the request finds
      ensures var pending := Live(old(store.pending), q.state, now);
              var session := SessionFor(cfg, store.shapes, old(store.sessions), visitor.session, now, refresh, visit).0;
              && row == RowFor(cfg, q, pending.Some?, IsReal(session), visitor.retry.Some?, x)
              && response == Answer(cfg, row, x, if pending.Some? then safe(pending.value.redirectTo) else "")
      // the state is spent, and no other
      ensures store.pending == if TakesPending(cfg, q) then old(store.pending) - {q.state} else old(store.pending)
      // a sign-in is stored, and ends the demo visit it replaces
      ensures row == C9 ==>
                x.Exchanged? &&
                store.sessions == WithoutReplacedDemo(store.shapes,
                                    WithSession(old(store.sessions), NewSession(x, now), now + cfg.sessionTtlSeconds * 1000),
                                    visitor.session, now)
      ensures row in {C5, C6, C7} ==>
                store.sessions == SessionFor(cfg, store.shapes, old(store.sessions), visitor.session, now, refresh, visit).1
      ensures row in {C1, C2, C3, C4, C8, CX} ==> store.sessions == old(store.sessions)
    {
      hide SessionFor, WithSession, WithoutReplacedDemo, NewSession;
      if q.error == "login_required" || q.error == "interaction_required" {
        return C1, Redirect(SignInPage(cfg.landing), []);
      }
      if q.error != "" {
        return C2, Redirect(SignedOut(ByProvider), []);
      }
      if q.code == "" || q.state == "" {
        return C3, Redirect(SignedOut(Incomplete), []);
      }
      if !cfg.hasProvider {
        return C4, Redirect(SignedOut(NoProvider), []);
      }
      var pending := store.TakePending(q.state, now);
      if pending == None {
        var session := ReadSession(visitor.session, now, refresh, visit);
        if IsReal(session) {
          return C5, Redirect(Page(cfg.landing), [Cleared(RetryCookie)]);
        }
        if visitor.retry.Some? {
          return C7, Redirect(SignedOut(Stale), [Cleared(RetryCookie)]);
        }
        return C6, Redirect(LoginRoute(cfg.landing), [SetCookie(RetryCookie, "1", RETRY_SECONDS)]);
      }
      match x {
        case ExchangeRefused => return C8, Redirect(SignedOut(RefusedExchange), []);
        case ExchangeFailed => return CX, ServerError;
        case Exchanged(sessionId, _, _, _, tenantId, _, _) =>
          if tenantId == "" {
            return C8, Redirect(SignedOut(NoTenant), []);
          }
          store.Put(NewSession(x, now), cfg.sessionTtlSeconds, now);
          RevokeReplacedDemo(visitor.session, now);
          return C9, Redirect(Page(safe(pending.value.redirectTo)),
                              [SetCookie(SessionCookie, sessionId, cfg.sessionTtlSeconds), Cleared(RetryCookie), Cleared(ReentryCookie)]);
      }
    }

    /** `login`. */
    method Login(q: LoginQuery, cookie: Option<string>, reentry: bool, limited: bool, now: int, refresh: Refresh, visit: DemoVisit,
                 isCurrent: Option<Session> -> bool, state: string, verifier: string) returns (row: LoginRow, response: Response)
      modifies store
      ensures var session := SessionFor(cfg, store.shapes, old(store.sessions), cookie, now, refresh, visit).0;
              row == LoginRowFor(cfg, q, reentry, limited, isCurrent(session))
      ensures response == LoginAnswer(cfg, q, row, safe(q.redirectTo), state, verifier)
      ensures store.pending == if row == L6
                               then old(store.pending)[state := Entry(PendingLogin(verifier, safe(q.redirectTo), now), now + PENDING_TTL_SECONDS * 1000)]
                               else old(store.pending)
      ensures row !in {L2, L3} ==> store.sessions == old(store.sessions)
      ensures row in {L2, L3} ==>
                store.sessions == SessionFor(cfg, store.shapes, old(store.sessions), cookie, now, refresh, visit).1
    {
      if limited {
        return L0, TooMany;
      }
      var redirectTo := safe(q.redirectTo);
      var cookies := [];
      if q.account {
        cookies := cookies + [Cleared(ReentryCookie)];
      } else if cfg.demoArea {
        if q.demo {
          var session := ReadSession(cookie, now, refresh, visit);
          if isCurrent(session) {
            return L2, Redirect(Page(redirectTo), []);
          }
          return L3, Redirect(DemoPage(redirectTo), []);
        }
        if reentry {
          return L4, Redirect(SignInPage(redirectTo), []);
        }
      }
      if !cfg.hasProvider {
        if !cfg.devForm {
          return L5, Redirect(SignedOut(NoProvider), cookies);
        }
        return L5, Redirect(SignInPage(redirectTo), cookies);
      }
      store.PutPending(state, PendingLogin(verifier, redirectTo, now), PENDING_TTL_SECONDS, now);
      return L6, Redirect(Provider(state, verifier), cookies);
    }

    /** `logout`, given the parked session of a demo visit and what confirming it comes to. */
    method Logout(sameOrigin: bool, cookie: Option<string>, now: int, parked: Option<Session>, refresh: Refresh) returns (response: Response)
      modifies store`sessions
      ensures (response, store.sessions) == LoggedOut(cfg, store.shapes, old(store.sessions), sameOrigin, cookie, now, parked, refresh)
    {
      if !sameOrigin {
        return Forbidden;
      }
      var record: Option<Session> := None;
      if cookie.Some? && cookie.value != "" {
        record := store.Get(cookie.value, now);
      }
      if IsDemo(record) {
        store.Delete(record.value.id);
        if parked.Some? {
          var restored := ConfirmParked(parked.value, now, refresh);
          if restored.Some? {
            return Redirect(Goodbye(true, true, false),
                            [SetCookie(SessionCookie, restored.value.id, cfg.sessionTtlSeconds), Cleared(ReentryCookie)]);
          }
          store.Delete(parked.value.id);
          return Redirect(Goodbye(true, false, true), [Cleared(SessionCookie), Cleared(ReentryCookie)]);
        }
        return Redirect(Goodbye(true, false, false), [Cleared(SessionCookie), Cleared(ReentryCookie)]);
      }
      if cookie.Some? && cookie.value != "" {
        store.Delete(cookie.value);
      }
      return Redirect(Goodbye(false, false, false), [Cleared(SessionCookie), Cleared(ReentryCookie)]);
    }

    method ConfirmParked(s: Session, now: int, refresh: Refresh) returns (after: Option<Session>)
      modifies store`sessions
      ensures (after, store.sessions) == Confirmed(cfg, old(store.sessions), s, now, refresh)
    {
      if s.kind == Dev {
        return if NeedsRefresh(s, now) then None else Some(s);
      }
      if !cfg.hasProvider || s.refreshToken == None || s.refreshToken == Some("") {
        return None;
      }
      match refresh {
        case RefreshRefused => return None;
        case Renewed(_, _, _, _, at) =>
          store.Put(WithTokens(s, refresh), cfg.sessionTtlSeconds, at);
          return Some(WithTokens(s, refresh));
      }
    }
  }

  /* ------------------------------------------------------------ login */

  datatype LoginQuery = LoginQuery(account: bool, demo: bool, redirectTo: string)

  datatype LoginRow = L0 | L2 | L3 | L4 | L5 | L6

  function LoginRowFor(cfg: Config, q: LoginQuery, reentry: bool, limited: bool, current: bool): LoginRow {
    if limited then L0
    else if !q.account && cfg.demoArea && q.demo then (if current then L2 else L3)
    else if !q.account && cfg.demoArea && reentry then L4
    else if !cfg.hasProvider then L5
    else L6
  }

  function LoginAnswer(cfg: Config, q: LoginQuery, row: LoginRow, target: string, state: string, verifier: string): Response {
    var cookies := if q.account then [Cleared(ReentryCookie)] else [];
    match row
    case L0 => TooMany
    case L2 => Redirect(Page(target), [])
    case L3 => Redirect(DemoPage(target), [])
    case L4 => Redirect(SignInPage(target), [])
    case L5 => Redirect(if cfg.devForm then SignInPage(target) else SignedOut(NoProvider), cookies)
    case L6 => Redirect(Provider(state, verifier), cookies)
  }

  /** A demo visitor never reaches the provider, unless the sign-in is asked for by name; everybody else does. */
  lemma WhoReachesTheProvider(cfg: Config, q: LoginQuery, reentry: bool, limited: bool, current: bool, target: string, state: string, verifier: string)
    ensures var r := LoginAnswer(cfg, q, LoginRowFor(cfg, q, reentry, limited, current), target, state, verifier);
            r.Redirect? && r.location.Provider? <==>
            !limited && cfg.hasProvider && (q.account || !(cfg.demoArea && (q.demo || reentry)))
  {
  }

  /* ------------------------------------------------------------ logout */

  // `confirmParked`.
  function Confirmed(cfg: Config, sessions: Sessions, s: Session, now: int, refresh: Refresh): (Option<Session>, Sessions) {
    if s.kind == Dev then (if NeedsRefresh(s, now) then None else Some(s), sessions)
    else if cfg.hasProvider && s.refreshToken.Some? && s.refreshToken.value != "" && refresh.Renewed? then
      (Some(WithTokens(s, refresh)), WithSession(sessions, WithTokens(s, refresh), refresh.at + cfg.sessionTtlSeconds * 1000))
    else (None, sessions)
  }

  function LoggedOut(cfg: Config, shapes: Shapes, sessions: Sessions, sameOrigin: bool, cookie: Option<string>, now: int,
                     parked: Option<Session>, refresh: Refresh): (Response, Sessions) {
    if !sameOrigin then (Forbidden, sessions)
    else
      var named := cookie.Some? && cookie.value != "";
      var record := if named then SessionAt(shapes, sessions, cookie.value, now) else None;
      var gone := [Cleared(SessionCookie), Cleared(ReentryCookie)];
      if IsDemo(record) then
        var rest := sessions - {record.value.id};
        if parked == None then (Redirect(Goodbye(true, false, false), gone), rest)
        else
          var (restored, after) := Confirmed(cfg, rest, parked.value, now, refresh);
          if restored == None then (Redirect(Goodbye(true, false, true), gone), after - {parked.value.id})
          else (Redirect(Goodbye(true, true, false),
                         [SetCookie(SessionCookie, restored.value.id, cfg.sessionTtlSeconds), Cleared(ReentryCookie)]), after)
      else (Redirect(Goodbye(false, false, false), gone), if named then sessions - {cookie.value} else sessions)
  }

  /* ------------------------------------------------------------ the browser's jar */

  datatype Kept = Kept(value: string, expiresAt: int)

  type Jar = map<CookieName, Kept>

  // What the browser sends.
  function Sent(jar: Jar, name: CookieName, now: int): Option<string> {
    if name in jar && now < jar[name].expiresAt then Some(jar[name].value) else None
  }

  function Store(jar: Jar, c: SetCookie, now: int): Jar {
    if c.maxAgeSeconds <= 0 then jar - {c.name} else jar[c.name := Kept(c.value, now + c.maxAgeSeconds * 1000)]
  }

  function StoreAll(jar: Jar, cookies: seq<SetCookie>, now: int): Jar
    decreases |cookies|
  {
    if cookies == [] then jar else StoreAll(Store(jar, cookies[0], now), cookies[1..], now)
  }

  function Received(jar: Jar, r: Response, now: int): Jar {
    if r.Redirect? then StoreAll(jar, r.cookies, now) else jar
  }

  /** A browser sends a cookie for exactly its Max-Age, and the others as before. */
  lemma CookieLasts(jar: Jar, c: SetCookie, now: int, t: int, other: CookieName)
    requires now <= t
    ensures Sent(Store(jar, c, now), c.name, t) == if t < now + c.maxAgeSeconds * 1000 then Some(c.value) else None
    ensures other != c.name ==> Sent(Store(jar, c, now), other, t) == Sent(jar, other, t)
  {
  }

  lemma StoreTwo(jar: Jar, a: SetCookie, b: SetCookie, now: int)
    ensures StoreAll(jar, [a], now) == Store(jar, a, now)
    ensures StoreAll(jar, [a, b], now) == Store(Store(jar, a, now), b, now)
  {
    assert [a][1..] == [] && [b][1..] == [] && [a, b][1..] == [b];
    assert StoreAll(Store(jar, a, now), [b], now) == Store(Store(jar, a, now), b, now);
  }

  lemma StoreThree(jar: Jar, a: SetCookie, b: SetCookie, c: SetCookie, now: int)
    ensures StoreAll(jar, [a, b, c], now) == Store(Store(Store(jar, a, now), b, now), c, now)
  {
    assert [a, b, c][1..] == [b, c];
    StoreTwo(Store(jar, a, now), b, c, now);
  }

  /**
   * A real sign-in always wins: after C9 the browser's cookie names the new
   * session and the store finds it, the markers are gone, and so is the demo
   * visit the browser was in.
   */
  lemma SignInWins(cfg: Config, shapes: Shapes, sessions: Sessions, jar: Jar, cookie: Option<string>, now: int, x: Exchange, target: string)
    requires x.Exchanged? && cfg.sessionTtlSeconds > 0 && Complete(shapes, NewSession(x, now))
    requires cookie != Some(x.sessionId)
    requires forall s | cookie.Some? && SessionAt(shapes, sessions, cookie.value, now) == Some(s) :: s.id == cookie.value
    ensures var after := Received(jar, Answer(cfg, C9, x, target), now);
            var store := WithoutReplacedDemo(shapes, WithSession(sessions, NewSession(x, now), now + cfg.sessionTtlSeconds * 1000), cookie, now);
            && Sent(after, SessionCookie, now) == Some(x.sessionId)
            && SessionAt(shapes, store, x.sessionId, now) == Some(NewSession(x, now))
            && RetryCookie !in after && ReentryCookie !in after
            && (cookie.Some? && cookie.value != "" && IsDemo(SessionAt(shapes, sessions, cookie.value, now)) ==>
                  forall t :: SessionAt(shapes, store, cookie.value, t) == None)
  {
    StoredSessionReadsBack(shapes, NewSession(x, now));
    StoreThree(jar, SetCookie(SessionCookie, x.sessionId, cfg.sessionTtlSeconds), Cleared(RetryCookie), Cleared(ReentryCookie), now);
  }

  /**
   * Signing out: afterwards the browser's cookie names a session only where a
   * parked one was confirmed, and the record the old cookie named is never found
   * again.  A request from another site changes nothing.
   */
  lemma LogoutEndsTheSession(cfg: Config, shapes: Shapes, sessions: Sessions, jar: Jar, sameOrigin: bool, now: int,
                             parked: Option<Session>, refresh: Refresh)
    requires cfg.sessionTtlSeconds > 0
    requires var cookie := Sent(jar, SessionCookie, now);
             && (forall s | cookie.Some? && SessionAt(shapes, sessions, cookie.value, now) == Some(s) :: s.id == cookie.value)
             && (parked.Some? ==> cookie != Some(parked.value.id))
    ensures var cookie := Sent(jar, SessionCookie, now);
            var (r, after) := LoggedOut(cfg, shapes, sessions, sameOrigin, cookie, now, parked, refresh);
            var kept := Received(jar, r, now);
            if !sameOrigin then kept == jar && after == sessions
            else
              && (cookie.Some? && cookie.value != "" ==> forall t :: SessionAt(shapes, after, cookie.value, t) == None)
              && ReentryCookie !in kept
              && (SessionCookie in kept <==> r.location == Goodbye(true, true, false))
              && (SessionCookie in kept ==> parked.Some? && Sent(kept, SessionCookie, now) == Some(parked.value.id))
  {
    hide Decode, Encode, NeedsRefresh;
    StoreTwo(jar, Cleared(SessionCookie), Cleared(ReentryCookie), now);
    if parked.Some? {
      StoreTwo(jar, SetCookie(SessionCookie, parked.value.id, cfg.sessionTtlSeconds), Cleared(ReentryCookie), now);
    }
  }
}
