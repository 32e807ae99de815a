/**
 * Sign-in over whole runs: callbacks racing for the same pending login, and one
 * browser sent back and forth (`packages/bff/src/bff.ts`, `packages/bff/src/session.ts`).
 */
module SignInRuns {
  import opened Wrappers
  import opened SessionStore
  import opened SignIn

  /* ------------------------------------------------------------ racing callbacks */

  // A pending login a callback has taken, and when.
  datatype Taken = Taken(login: PendingLogin, at: int)

  // `open` holds the callbacks that have taken a login and not yet exchanged its code.
  datatype World = World(pending: Pendings, now: int, verifiers: set<string>, open: map<nat, Taken>, exchanged: seq<Taken>)

  datatype Step =
    | Pass(ms: nat)
    | LogIn(state: string, verifier: string, redirectTo: string)
    | Take(callback: nat, state: string)
    | Exchange(callback: nat)
    | Drop(state: string)
    | Restart

  const START: World := World(map[], 0, {}, map[], [])

  // A verifier is fresh randomness; a state may even repeat.
  predicate Enabled(w: World, step: Step) {
    match step
    case LogIn(_, verifier, _) => verifier !in w.verifiers
    case Take(c, _) => c !in w.open
    case Exchange(c) => c in w.open
    case _ => true
  }

  // With `atomic`, taking a login removes it in the same step; otherwise a later `Drop` does.
  function Apply(atomic: bool, w: World, step: Step): World {
    match step
    case Pass(ms) => w.(now := w.now + ms)
    case LogIn(state, verifier, redirectTo) =>
      w.(pending := w.pending[state := Entry(PendingLogin(verifier, redirectTo, w.now), w.now + PENDING_TTL_SECONDS * 1000)],
         verifiers := w.verifiers + {verifier})
    case Take(c, state) =>
      var found := Live(w.pending, state, w.now);
      w.(pending := if atomic then w.pending - {state} else w.pending,
         open := if found.Some? then w.open[c := Taken(found.value, w.now)] else w.open)
    case Exchange(c) => if c in w.open then w.(open := w.open - {c}, exchanged := w.exchanged + [w.open[c]]) else w
    case Drop(state) => w.(pending := w.pending - {state})
    case Restart => w.(pending := map[])
  }

  predicate IsRun(atomic: bool, w: World, steps: seq<Step>)
    decreases |steps|
  {
    steps == [] || (Enabled(w, steps[0]) && IsRun(atomic, Apply(atomic, w, steps[0]), steps[1..]))
  }

  function After(atomic: bool, w: World, steps: seq<Step>): World
    decreases |steps|
  {
    if steps == [] then w else After(atomic, Apply(atomic, w, steps[0]), steps[1..])
  }

  // A verifier stands in one place at most.
  ghost predicate VerifiersApart(w: World) {
    && (forall s, t | s in w.pending && t in w.pending && s != t :: w.pending[s].value.verifier != w.pending[t].value.verifier)
    && (forall c, d | c in w.open && d in w.open && c != d :: w.open[c].login.verifier != w.open[d].login.verifier)
    && (forall i, j | 0 <= i < j < |w.exchanged| :: w.exchanged[i].login.verifier != w.exchanged[j].login.verifier)
    && (forall s, c | s in w.pending && c in w.open :: w.pending[s].value.verifier != w.open[c].login.verifier)
    && (forall s, i | s in w.pending && 0 <= i < |w.exchanged| :: w.pending[s].value.verifier != w.exchanged[i].login.verifier)
    && (forall c, i | c in w.open && 0 <= i < |w.exchanged| :: w.open[c].login.verifier != w.exchanged[i].login.verifier)
  }

  ghost predicate VerifiersKnown(w: World) {
    && (forall s | s in w.pending :: w.pending[s].value.verifier in w.verifiers)
    && (forall c | c in w.open :: w.open[c].login.verifier in w.verifiers)
    && (forall i | 0 <= i < |w.exchanged| :: w.exchanged[i].login.verifier in w.verifiers)
  }

  // Taken while it was still good.
  predicate InTime(t: Taken) {
    t.login.createdAt <= t.at < t.login.createdAt + PENDING_TTL_SECONDS * 1000
  }

  ghost predicate AllInTime(w: World) {
    && (forall s | s in w.pending :: w.pending[s].value.createdAt <= w.now
                                     && w.pending[s].expiresAt == w.pending[s].value.createdAt + PENDING_TTL_SECONDS * 1000)
    && (forall c | c in w.open :: InTime(w.open[c]))
    && (forall i | 0 <= i < |w.exchanged| :: InTime(w.exchanged[i]))
  }

  ghost predicate Invariant(w: World) {
    VerifiersApart(w) && VerifiersKnown(w) && AllInTime(w)
  }

  lemma StepKeeps(w: World, step: Step)
    requires Invariant(w) && Enabled(w, step)
    ensures Invariant(Apply(true, w, step))
  {
    match step {
      case Take(c, state) =>
        if Live(w.pending, state, w.now).Some? {
          TakeKeeps(w, c, state);
        }
      case LogIn(state, verifier, redirectTo) => LogInKeeps(w, state, verifier, redirectTo);
      case Exchange(c) => ExchangeKeeps(w, c);
      case _ =>
    }
  }

  lemma LogInKeeps(w: World, state: string, verifier: string, redirectTo: string)
    requires Invariant(w) && verifier !in w.verifiers
    ensures Invariant(Apply(true, w, LogIn(state, verifier, redirectTo)))
  {
  }

  // Taking moves a login from the store to the callback.
  lemma TakeKeeps(w: World, c: nat, state: string)
    requires Invariant(w) && c !in w.open && Live(w.pending, state, w.now).Some?
    ensures Invariant(Apply(true, w, Take(c, state)))
  {
    TakeKeepsApart(w, c, state);
    hide VerifiersApart;
  }

  lemma TakeKeepsApart(w: World, c: nat, state: string)
    requires VerifiersApart(w) && c !in w.open && Live(w.pending, state, w.now).Some?
    ensures VerifiersApart(Apply(true, w, Take(c, state)))
  {
  }

  // Exchanging moves it on, for good.
  lemma ExchangeKeeps(w: World, c: nat)
    requires Invariant(w) && c in w.open
    ensures Invariant(Apply(true, w, Exchange(c)))
  {
    ExchangeKeepsApart(w, c);
    hide VerifiersApart;
  }

  lemma ExchangeKeepsApart(w: World, c: nat)
    requires VerifiersApart(w) && c in w.open
    ensures VerifiersApart(Apply(true, w, Exchange(c)))
  {
  }

  lemma {:induction false} RunKeeps(w: World, steps: seq<Step>)
    requires Invariant(w) && IsRun(true, w, steps)
    ensures Invariant(After(true, w, steps))
    decreases |steps|
  {
    hide Invariant, Apply, Enabled;
    if steps != [] {
      StepKeeps(w, steps[0]);
      RunKeeps(Apply(true, w, steps[0]), steps[1..]);
    }
  }

  /**
   * However callbacks interleave, and however often a callback URL is visited, no
   * pending login feeds two code exchanges; and each that feeds one was taken
   * within half an hour of its login.
   */
  lemma OneExchangeForEachLogin(steps: seq<Step>)
    requires IsRun(true, START, steps)
    ensures var done := After(true, START, steps).exchanged;
            && (forall i, j | 0 <= i < j < |done| :: done[i].login.verifier != done[j].login.verifier)
            && (forall i | 0 <= i < |done| :: done[i].login.createdAt <= done[i].at < done[i].login.createdAt + 30 * 60 * 1000)
  {
    RunKeeps(START, steps);
  }

  /** Reading and then deleting would leave a window: two callbacks exchange the same login's code. */
  lemma SeparateDeleteReplays(state: string, verifier: string)
    ensures var steps := [LogIn(state, verifier, "/"), Take(1, state), Take(2, state), Drop(state), Exchange(1), Exchange(2)];
            && IsRun(false, START, steps)
            && var done := After(false, START, steps).exchanged;
               |done| == 2 && done[0] == done[1]
  {
    var w3 := BothHold(state, verifier);
    var t := w3.open[1];
    var w4 := w3.(pending := map[]);
    var w5 := w4.(open := map[2 := t], exchanged := [t]);
    var w6 := w4.(open := map[], exchanged := [t, t]);
    assert IsRun(false, w6, []) && After(false, w6, []) == w6;
    hide IsRun, After;
    Follows(w5, Exchange(2), w6, []);
    Follows(w4, Exchange(1), w5, [Exchange(2)] + []);
    Follows(w3, Drop(state), w4, [Exchange(1)] + ([Exchange(2)] + []));
    var rest := [Drop(state)] + ([Exchange(1)] + ([Exchange(2)] + []));
    TwoFindIt(state, verifier, rest);
    assert [LogIn(state, verifier, "/"), Take(1, state), Take(2, state), Drop(state), Exchange(1), Exchange(2)] ==
           [LogIn(state, verifier, "/")] + ([Take(1, state)] + ([Take(2, state)] + rest));
  }

  lemma Follows(w: World, step: Step, next: World, rest: seq<Step>)
    requires Enabled(w, step) && Apply(false, w, step) == next && IsRun(false, next, rest)
    ensures IsRun(false, w, [step] + rest) && After(false, w, [step] + rest) == After(false, next, rest)
  {
    hide Enabled, Apply;
    assert ([step] + rest)[1..] == rest;
  }

  // The first half of the run below: a login, and two callbacks that find it.
  lemma TwoFindIt(state: string, verifier: string, rest: seq<Step>)
    requires IsRun(false, BothHold(state, verifier), rest)
    ensures var steps := [LogIn(state, verifier, "/")] + ([Take(1, state)] + ([Take(2, state)] + rest));
            IsRun(false, START, steps) && After(false, START, steps) == After(false, BothHold(state, verifier), rest)
  {
    hide IsRun, After;
    var w3 := BothHold(state, verifier);
    var w1, w2 := w3.(open := map[]), w3.(open := map[1 := w3.open[1]]);
    Follows(w2, Take(2, state), w3, rest);
    Follows(w1, Take(1, state), w2, [Take(2, state)] + rest);
    Follows(START, LogIn(state, verifier, "/"), w1, [Take(1, state)] + ([Take(2, state)] + rest));
  }

  function BothHold(state: string, verifier: string): World {
    var login := PendingLogin(verifier, "/", 0);
    var t := Taken(login, 0);
    World(map[state := Entry(login, PENDING_TTL_SECONDS * 1000)], 0, {verifier}, map[1 := t, 2 := t], [])
  }

  /* ------------------------------------------------------------ one browser */

  // A visit to the callback, with what it finds there; to the login route or the
  // logout, whatever they find; or any other request, none of which sets the
  // marker.  The answer arrives when the request is done.
  datatype Event =
    | Back(query: CallbackQuery, pending: bool, signedIn: bool, exchange: Exchange, target: string, at: int, answeredAt: int)
    | ToLogin(login: LoginQuery, row: LoginRow, target: string, state: string, verifier: string, at: int, answeredAt: int)
    | ToLogout(shapes: Shapes, sessions: Sessions, sameOrigin: bool, parked: Option<Session>, refresh: Refresh, at: int, answeredAt: int)
    | Elsewhere(cookies: seq<SetCookie>, at: int, answeredAt: int)

  function EventRow(cfg: Config, jar: Jar, e: Event): Row
    requires e.Back?
  {
    RowFor(cfg, e.query, e.pending, e.signedIn, Sent(jar, RetryCookie, e.at).Some?, e.exchange)
  }

  function EventAnswer(cfg: Config, jar: Jar, e: Event): Response {
    match e
    case Back(_, _, _, x, target, _, _) => Answer(cfg, EventRow(cfg, jar, e), x, target)
    case ToLogin(q, row, target, state, verifier, _, _) => LoginAnswer(cfg, q, row, target, state, verifier)
    case ToLogout(shapes, sessions, sameOrigin, parked, refresh, at, _) =>
      LoggedOut(cfg, shapes, sessions, sameOrigin, Sent(jar, SessionCookie, at), at, parked, refresh).0
    case Elsewhere(cookies, _, _) => Redirect(Page(""), cookies)
  }

  // The jar before event n.
  function JarAt(cfg: Config, jar: Jar, events: seq<Event>, n: nat): Jar
    requires n <= |events|
  {
    if n == 0 then jar
    else
      var before := JarAt(cfg, jar, events, n - 1);
      Received(before, EventAnswer(cfg, before, events[n - 1]), events[n - 1].answeredAt)
  }

  // One request at a time; of routes outside sign-in it is taken that they leave the marker alone.
  ghost predicate Sequential(events: seq<Event>) {
    && (forall i | 0 <= i < |events| :: events[i].at <= events[i].answeredAt)
    && (forall i, j | 0 <= i < j < |events| :: events[i].answeredAt <= events[j].at)
    && (forall i | 0 <= i < |events| && events[i].Elsewhere? :: LeavesMarker(events[i].cookies))
  }

  ghost predicate LeavesMarker(cookies: seq<SetCookie>) {
    forall c | c in cookies :: c.name != RetryCookie
  }

  predicate IsRow(cfg: Config, jar: Jar, events: seq<Event>, i: nat, row: Row)
    requires i < |events|
  {
    events[i].Back? && EventRow(cfg, JarAt(cfg, jar, events, i), events[i]) == row
  }

  // A row that clears the marker.
  predicate Clears(cfg: Config, jar: Jar, events: seq<Event>, i: nat)
    requires i < |events|
  {
    IsRow(cfg, jar, events, i, C5) || IsRow(cfg, jar, events, i, C7) || IsRow(cfg, jar, events, i, C9)
  }

  lemma {:induction false} OthersKeepMarker(jar: Jar, cookies: seq<SetCookie>, now: int)
    requires LeavesMarker(cookies)
    ensures var after := StoreAll(jar, cookies, now);
            (RetryCookie in after <==> RetryCookie in jar) && (RetryCookie in jar ==> after[RetryCookie] == jar[RetryCookie])
    decreases |cookies|
  {
    if cookies != [] {
      assert cookies[0] in cookies;
      OthersKeepMarker(Store(jar, cookies[0], now), cookies[1..], now);
    }
  }

  /** Neither the login route nor the logout ever touches the marker. */
  lemma LoginAndLogoutLeaveMarker(cfg: Config, jar: Jar, e: Event)
    requires e.ToLogin? || e.ToLogout?
    ensures var r := EventAnswer(cfg, jar, e); r.Redirect? ==> LeavesMarker(r.cookies)
  {
    hide SessionAt, Confirmed;
  }

  // What each row does to the marker.
  lemma RowAndMarker(cfg: Config, jar: Jar, row: Row, x: Exchange, target: string, now: int)
    ensures var after := Received(jar, Answer(cfg, row, x, target), now);
            && (row == C6 ==> RetryCookie in after && after[RetryCookie].expiresAt == now + RETRY_SECONDS * 1000)
            && (row in {C5, C7, C9} ==> RetryCookie !in after)
            && (row in {C1, C2, C3, C4, C8, CX} ==> after == jar)
  {
    StoreTwo(jar, Cleared(RetryCookie), Cleared(RetryCookie), now);
    StoreTwo(jar, SetCookie(RetryCookie, "1", RETRY_SECONDS), Cleared(RetryCookie), now);
    StoreThree(jar, SetCookie(SessionCookie, if x.Exchanged? then x.sessionId else "", cfg.sessionTtlSeconds),
               Cleared(RetryCookie), Cleared(ReentryCookie), now);
  }

  lemma OthersLeaveMarker(cfg: Config, jar: Jar, events: seq<Event>, k: nat)
    requires Sequential(events) && k < |events| && !events[k].Back?
    ensures var r := EventAnswer(cfg, jar, events[k]); r.Redirect? ==> LeavesMarker(r.cookies)
  {
    if !events[k].Elsewhere? {
      LoginAndLogoutLeaveMarker(cfg, jar, events[k]);
    }
    hide LoginAnswer, LoggedOut, LeavesMarker;
  }

  // Once set, and until something clears it, the marker outlasts a minute.
  lemma {:induction false} MarkerStays(cfg: Config, jar: Jar, events: seq<Event>, i: nat, n: nat)
    requires Sequential(events) && i < n <= |events|
    requires IsRow(cfg, jar, events, i, C6)
    requires forall k | i < k < n :: !Clears(cfg, jar, events, k)
    ensures var marked := JarAt(cfg, jar, events, n);
            RetryCookie in marked && marked[RetryCookie].expiresAt >= events[i].answeredAt + RETRY_SECONDS * 1000
    decreases n
  {
    hide Answer, RowFor;
    var before, e := JarAt(cfg, jar, events, n - 1), events[n - 1];
    if n - 1 > i {
      MarkerStays(cfg, jar, events, i, n - 1);
      assert !Clears(cfg, jar, events, n - 1);
    }
    if e.Back? {
      RowAndMarker(cfg, before, EventRow(cfg, before, e), e.exchange, e.target, e.answeredAt);
    } else {
      OthersLeaveMarker(cfg, before, events, n - 1);
      var r := EventAnswer(cfg, before, e);
      hide EventAnswer;
      if r.Redirect? {
        OthersKeepMarker(before, r.cookies, e.answeredAt);
      }
    }
  }

  /**
   * Between two silent restarts of one browser either a minute passes, or C5, C7
   * or C9 clears the marker.
   */
  lemma RestartsAreApart(cfg: Config, jar: Jar, events: seq<Event>, i: nat, j: nat)
    requires Sequential(events) && i < j < |events|
    requires IsRow(cfg, jar, events, i, C6) && IsRow(cfg, jar, events, j, C6)
    ensures events[j].at >= events[i].answeredAt + RETRY_SECONDS * 1000 || exists k | i < k < j :: Clears(cfg, jar, events, k)
  {
    hide JarAt;
    if forall k | i < k < j :: !Clears(cfg, jar, events, k) {
      MarkerStays(cfg, jar, events, i, j);
    }
  }

  // The answer sends the browser to the login route.
  predicate LeadsToLogin(cfg: Config, jar: Jar, events: seq<Event>, i: nat)
    requires i < |events|
  {
    var r := EventAnswer(cfg, JarAt(cfg, jar, events, i), events[i]);
    events[i].Back? && r.Redirect? && r.location.LoginRoute?
  }

  /**
   * No redirect loop: of the callbacks one chain of redirects passes through, each
   * but the last sent back to the login route, no two within a minute send it
   * back.  The second one ends the chain.
   */
  lemma RedirectsDoNotLoop(cfg: Config, jar: Jar, events: seq<Event>, i: nat, j: nat)
    requires Sequential(events) && i < j < |events|
    requires forall k | i <= k < j && events[k].Back? :: LeadsToLogin(cfg, jar, events, k)
    requires events[i].Back? && events[j].at < events[i].answeredAt + RETRY_SECONDS * 1000
    ensures !LeadsToLogin(cfg, jar, events, j)
  {
    hide JarAt;
    assert LeadsToLogin(cfg, jar, events, i);
    forall k | i < k < j
      ensures !Clears(cfg, jar, events, k)
    {
      assert events[k].Back? ==> LeadsToLogin(cfg, jar, events, k);
    }
    MarkerStays(cfg, jar, events, i, j);
  }
}
