/**
 * Where sessions and half-finished logins are kept (`packages/bff/src/session.ts`):
 * the stored record and its decoding, and the store held in memory.
 */
module SessionStore {
  import opened Wrappers
  import Text

  datatype Kind = Oidc | Dev | Demo

  // What only a demo session carries.
  datatype Visit = Visit(persona: string, generation: int, sid: string, parked: Option<string>, lastTouchAt: Option<int>)

  // Times are epoch milliseconds.
  datatype Session = Session(
    id: string,
    accessToken: string,
    refreshToken: Option<string>,
    accessExpiresAt: int,
    tenantId: string,
    userId: Option<string>,
    displayName: Option<string>,
    createdAt: int,
    kind: Kind,
    visit: Option<Visit>)

  datatype PendingLogin = PendingLogin(verifier: string, redirectTo: string, createdAt: int)

  predicate IsReal(s: Option<Session>) {
    s.Some? && s.value.kind != Demo
  }

  predicate IsDemo(s: Option<Session>) {
    s.Some? && s.value.kind == Demo
  }

  /** `needsRefresh`: within a minute of expiring. */
  predicate NeedsRefresh(s: Session, now: int) {
    s.accessExpiresAt - 60_000 <= now
  }

  /* ------------------------------------------------------------ the stored record */

  // A member of the stored object.  Whatever else it may be is `Other`.
  datatype Field = Missing | NullField | TextField(s: string) | NumberField(n: int) | Other

  datatype Record = Record(
    id: Field,
    accessToken: Field,
    refreshToken: Field,
    accessExpiresAt: Field,
    tenantId: Field,
    userId: Field,
    displayName: Field,
    createdAt: Field,
    kind: Field,
    persona: Field,
    demoGeneration: Field,
    demoSid: Field,
    parkedSessionId: Field,
    lastTouchAt: Field)

  // The stored text: no JSON object, or one.
  datatype Raw = Unreadable | Readable(record: Record)

  // The demo's own checks: token, persona and visit id.
  datatype Shapes = Shapes(isToken: string -> bool, isPersona: string -> bool, isSid: string -> bool)

  const MAX_SAFE: int := 9007199254740991

  predicate Filled(f: Field) {
    f.TextField? && f.s != ""
  }

  function TextOrNone(f: Field): Option<string> {
    if f.TextField? then Some(f.s) else None
  }

  function KindOf(f: Field): Option<Kind> {
    match f
    case Missing => Some(Oidc)
    case TextField(s) => if s == "oidc" then Some(Oidc) else if s == "dev" then Some(Dev) else if s == "demo" then Some(Demo) else None
    case _ => None
  }

  // `epochMs`: a number, or its digits.
  function EpochMs(f: Field): Option<int> {
    match f
    case NumberField(n) => if 0 <= n <= MAX_SAFE then Some(n) else None
    case TextField(s) =>
      if s != "" && Text.AllDigits(s) && Text.Decimal(s) <= MAX_SAFE then Some(Text.Decimal(s)) else None
    case _ => None
  }

  function DecodeVisit(shapes: Shapes, r: Record): Option<Visit> {
    if !r.accessToken.TextField? || !shapes.isToken(r.accessToken.s) then None
    else if !r.persona.TextField? || !shapes.isPersona(r.persona.s) then None
    else if !r.demoGeneration.NumberField? || r.demoGeneration.n < 1 || r.demoGeneration.n > MAX_SAFE then None
    else if !r.demoSid.TextField? || !shapes.isSid(r.demoSid.s) then None
    else Some(Visit(r.persona.s, r.demoGeneration.n, r.demoSid.s,
                    if Filled(r.parkedSessionId) then Some(r.parkedSessionId.s) else None, EpochMs(r.lastTouchAt)))
  }

  /** `decodeSession`. */
  function Decode(shapes: Shapes, raw: Raw): Option<Session> {
    if raw.Unreadable? then None
    else
      var r := raw.record;
      if !Filled(r.id) || !Filled(r.accessToken) || !Filled(r.tenantId) || !r.accessExpiresAt.NumberField? then None
      else
        match KindOf(r.kind)
        case None => None
        case Some(kind) =>
          var visit := if kind == Demo then DecodeVisit(shapes, r) else None;
          if kind == Demo && visit == None then None
          else
            Some(Session(r.id.s, r.accessToken.s, if kind == Demo then None else TextOrNone(r.refreshToken),
                         r.accessExpiresAt.n, r.tenantId.s, TextOrNone(r.userId), TextOrNone(r.displayName),
                         if r.createdAt.NumberField? then r.createdAt.n else 0, kind, visit))
  }

  function NullableField(s: Option<string>): Field {
    if s.Some? then TextField(s.value) else NullField
  }

  function OptionalField(s: Option<string>): Field {
    if s.Some? then TextField(s.value) else Missing
  }

  function KindText(k: Kind): string {
    match k
    case Oidc => "oidc"
    case Dev => "dev"
    case Demo => "demo"
  }

  /** `encodeSession`. */
  function Encode(s: Session): Record {
    var v := s.visit;
    Record(TextField(s.id), TextField(s.accessToken), NullableField(s.refreshToken), NumberField(s.accessExpiresAt),
           TextField(s.tenantId), NullableField(s.userId), NullableField(s.displayName), NumberField(s.createdAt),
           TextField(KindText(s.kind)),
           if v.Some? then TextField(v.value.persona) else Missing,
           if v.Some? then NumberField(v.value.generation) else Missing,
           if v.Some? then TextField(v.value.sid) else Missing,
           if v.Some? then OptionalField(v.value.parked) else Missing,
           if v.Some? && v.value.lastTouchAt.Some? then NumberField(v.value.lastTouchAt.value) else Missing)
  }

  // What a session must have to be worth keeping.
  predicate Complete(shapes: Shapes, s: Session) {
    && s.id != "" && s.accessToken != "" && s.tenantId != ""
    && (s.kind == Demo <==> s.visit.Some?)
    && (s.visit.Some? ==>
          && s.refreshToken == None && shapes.isToken(s.accessToken)
          && shapes.isPersona(s.visit.value.persona) && shapes.isSid(s.visit.value.sid)
          && 1 <= s.visit.value.generation <= MAX_SAFE
          && s.visit.value.parked != Some("")
          && (s.visit.value.lastTouchAt.Some? ==> 0 <= s.visit.value.lastTouchAt.value <= MAX_SAFE))
  }

  /** A session survives storage exactly when it is complete. */
  lemma StoredSessionReadsBack(shapes: Shapes, s: Session)
    ensures Decode(shapes, Readable(Encode(s))) == Some(s) <==> Complete(shapes, s)
  {
  }

  /** Whatever is stored, what is read is a complete session: stored again it reads back the same. */
  lemma DecodedIsComplete(shapes: Shapes, raw: Raw)
    requires Decode(shapes, raw).Some?
    ensures Complete(shapes, Decode(shapes, raw).value)
    ensures Decode(shapes, Readable(Encode(Decode(shapes, raw).value))) == Decode(shapes, raw)
  {
    DecodedHasParts(shapes, raw);
    StoredSessionReadsBack(shapes, Decode(shapes, raw).value);
  }

  lemma DecodedHasParts(shapes: Shapes, raw: Raw)
    requires Decode(shapes, raw).Some?
    ensures Complete(shapes, Decode(shapes, raw).value)
  {
  }

  /** Real sessions are those of a provider and of development; the rest are the demo's. */
  lemma RealOrDemo(s: Session)
    ensures IsReal(Some(s)) <==> s.kind == Oidc || s.kind == Dev
    ensures IsDemo(Some(s)) <==> s.kind == Demo
    ensures !IsReal(None) && !IsDemo(None)
  {
  }

  // The text of the field, where it has one.
  function TextIn(f: Field): Option<string> {
    match f
    case TextField(s) => Some(s)
    case _ => None
  }

  /**
   * What is read of a stored record that is no demo's, field by field: one from
   * before there were kinds is a provider's, texts that are missing or something
   * else are none, and so is the time it was created, as 0.
   */
  lemma RecordReads(shapes: Shapes, r: Record)
    requires r.kind == Missing || r.kind == TextField("oidc") || r.kind == TextField("dev")
    ensures Decode(shapes, Readable(r)).Some? <==>
            && TextIn(r.id) !in {None, Some("")} && TextIn(r.accessToken) !in {None, Some("")} && TextIn(r.tenantId) !in {None, Some("")}
            && r.accessExpiresAt.NumberField?
    ensures Decode(shapes, Readable(r)).Some? ==>
              var s := Decode(shapes, Readable(r)).value;
              && Some(s.id) == TextIn(r.id) && Some(s.accessToken) == TextIn(r.accessToken) && Some(s.tenantId) == TextIn(r.tenantId)
              && NumberField(s.accessExpiresAt) == r.accessExpiresAt
              && s.refreshToken == TextIn(r.refreshToken) && s.userId == TextIn(r.userId) && s.displayName == TextIn(r.displayName)
              && s.createdAt == (if r.createdAt.NumberField? then r.createdAt.n else 0)
              && s.kind == (if r.kind == TextField("dev") then Dev else Oidc)
              && s.visit == None
  {
  }

  /** A record of any other kind than the three is refused, and a time is a safe whole number or its decimal digits. */
  lemma OddFieldsRead(shapes: Shapes, r: Record, n: nat)
    ensures r.kind !in {Missing, TextField("oidc"), TextField("dev"), TextField("demo")} ==> Decode(shapes, Readable(r)) == None
    ensures EpochMs(TextField(Text.DecimalText(n))) == EpochMs(NumberField(n)) ==
            if n < 0x20_0000_0000_0000 then Some(n) else None
    ensures EpochMs(Missing) == EpochMs(NullField) == EpochMs(Other) == EpochMs(TextField("")) == None
  {
    Text.DecimalReadsBack(n);
  }

  /* ------------------------------------------------------------ the store */

  datatype Entry<T> = Entry(value: T, expiresAt: int)

  type Sessions = map<string, Entry<Raw>>
  type Pendings = map<string, Entry<PendingLogin>>

  // The value under a key, unless it has expired.
  function Live<T>(entries: map<string, Entry<T>>, key: string, now: int): Option<T> {
    if key in entries && entries[key].expiresAt > now then Some(entries[key].value) else None
  }

  function SessionAt(shapes: Shapes, sessions: Sessions, id: string, now: int): Option<Session> {
    match Live(sessions, id, now)
    case None => None
    case Some(raw) => Decode(shapes, raw)
  }

  function WithSession(sessions: Sessions, s: Session, expiresAt: int): Sessions {
    sessions[s.id := Entry(Readable(Encode(s)), expiresAt)]
  }

  /** `memorySessionStore`.  The time is the caller's. */
  class MemorySessionStore {
    const shapes: Shapes
    var sessions: Sessions
    var pending: Pendings

    constructor (shapes: Shapes)
      ensures this.shapes == shapes && sessions == map[] && pending == map[]
    {
      this.shapes := shapes;
      sessions := map[];
      pending := map[];
    }

    method Get(id: string, now: int) returns (s: Option<Session>)
      ensures s == SessionAt(shapes, sessions, id, now)
    {
      s := None;
      if id in sessions {
        var entry := sessions[id];
        if entry.expiresAt > now {
          s := Decode(shapes, entry.value);
        }
      }
    }

    // A complete session can be read until its time is up, and no other session changes.
    method Put(s: Session, ttlSeconds: int, now: int)
      modifies this`sessions
      ensures sessions == WithSession(old(sessions), s, now + ttlSeconds * 1000)
      ensures Complete(shapes, s) ==>
                forall t :: SessionAt(shapes, sessions, s.id, t) == if t < now + ttlSeconds * 1000 then Some(s) else None
      ensures forall id, t :: id != s.id ==> SessionAt(shapes, sessions, id, t) == SessionAt(shapes, old(sessions), id, t)
    {
      sessions := sessions[s.id := Entry(Readable(Encode(s)), now + ttlSeconds * 1000)];
      StoredSessionReadsBack(shapes, s);
    }

    method Delete(id: string)
      modifies this`sessions
      ensures sessions == old(sessions) - {id}
    {
      sessions := sessions - {id};
    }

    method PutPending(state: string, login: PendingLogin, ttlSeconds: int, now: int)
      modifies this`pending
      ensures pending == old(pending)[state := Entry(login, now + ttlSeconds * 1000)]
    {
      pending := pending[state := Entry(login, now + ttlSeconds * 1000)];
    }

    // Single use: taken or expired, the record is gone.
    method TakePending(state: string, now: int) returns (login: Option<PendingLogin>)
      modifies this`pending
      ensures login == Live(old(pending), state, now)
      ensures pending == old(pending) - {state}
      ensures forall t :: Live(pending, state, t) == None
      ensures forall other, t :: other != state ==> Live(pending, other, t) == Live(old(pending), other, t)
    {
      login := None;
      if state in pending {
        var entry := pending[state];
        if entry.expiresAt > now {
          login := Some(entry.value);
        }
      }
      pending := pending - {state};
    }

    method Close()
      modifies this
      ensures sessions == map[] && pending == map[]
    {
      sessions := map[];
      pending := map[];
    }
  }
}
