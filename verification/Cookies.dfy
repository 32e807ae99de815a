/**
 * Cookies as the sign-in pages write and read them, and the last page for
 * `/resume` (`packages/bff/src/cookies.ts`, `packages/bff/src/redirects.ts`).
 */
module Cookies {
  import opened Wrappers
  import opened Text
  import opened Percent

  // A cookie as a browser keeps it: the value is the text it was sent.
  datatype Cookie = Cookie(name: string, value: string)

  /** `serialiseCookie`, with the attributes every cookie here carries. */
  method SerialiseCookie(name: string, value: string, maxAge: nat) returns (header: string)
    ensures header == SetCookie(name, value, maxAge)
    ensures name != "" && Trimmed(name) && ';' !in name && '=' !in name ==> Kept(header) == Cookie(name, Encode(value))
  {
    var parts := [name + "=" + Encode(value), "Path=/", "Max-Age=" + DecimalText(maxAge)];
    parts := parts + ["HttpOnly"];
    parts := parts + ["Secure"];
    parts := parts + ["SameSite=Lax"];
    header := Join(parts, "; ");
    assert parts == Attributes(name, value, maxAge);
    if name != "" && Trimmed(name) && ';' !in name && '=' !in name {
      KeepsWhatIsSet(name, value, maxAge);
    }
  }

  function Attributes(name: string, value: string, maxAge: nat): seq<string> {
    [name + "=" + Encode(value), "Path=/", "Max-Age=" + DecimalText(maxAge), "HttpOnly", "Secure", "SameSite=Lax"]
  }

  function SetCookie(name: string, value: string, maxAge: nat): string {
    Join(Attributes(name, value, maxAge), "; ")
  }

  // What a browser keeps of a `Set-Cookie` header (section 5.2 of RFC 6265).
  function Kept(header: string): Cookie {
    var pair := header[..IndexOf(header, ';')];
    var separator := IndexOf(pair, '=');
    if separator == |pair| then Cookie("", Trim(pair))
    else Cookie(Trim(pair[..separator]), Trim(pair[separator + 1..]))
  }

  /* ------------------------------------------------------------ reading */

  // What one pair of a header says about a name: nothing, or its decoded value.
  datatype Reading = Skip | Found(value: Option<string>)

  function ReadPair(pair: string, name: string): Reading {
    var separator := IndexOf(pair, '=');
    if separator < 1 || separator == |pair| then Skip
    else if Trim(pair[..separator]) != name then Skip
    else Found(Decode(Trim(pair[separator + 1..])))
  }

  function ReadPairs(pairs: seq<string>, name: string): Option<string> {
    if pairs == [] then None
    else
      match ReadPair(pairs[0], name)
      case Skip => ReadPairs(pairs[1..], name)
      case Found(value) => value
  }

  function CookieIn(header: string, name: string): Option<string> {
    if header == "" then None else ReadPairs(Split(header, ';'), name)
  }

  /** `readCookie`: the first pair of that name decides. */
  method ReadCookie(header: Option<string>, name: string) returns (value: Option<string>)
    ensures value == match header case None => None case Some(h) => CookieIn(h, name)
  {
    if header == None || header.value == "" {
      return None;
    }
    var pairs := Split(header.value, ';');
    for i := 0 to |pairs|
      invariant ReadPairs(pairs, name) == ReadPairs(pairs[i..], name)
    {
      var pair := pairs[i];
      assert pairs[i..][0] == pair && pairs[i..][1..] == pairs[i + 1..];
      var separator := IndexOf(pair, '=');
      if separator < 1 || separator == |pair| {
        continue;
      }
      if Trim(pair[..separator]) != name {
        continue;
      }
      var raw := Trim(pair[separator + 1..]);
      return Decode(raw);
    }
    return None;
  }

  /* ------------------------------------------------------------ what a browser sends back */

  // The pairs of a `Cookie` header as they stand between its semicolons.
  function HeaderPairs(jar: seq<Cookie>, lead: string): seq<string> {
    if jar == [] then [] else [lead + jar[0].name + "=" + jar[0].value] + HeaderPairs(jar[1..], " ")
  }

  /** The `Cookie` header for a jar: `name=value; name=value` (section 5.4 of RFC 6265). */
  function CookieHeader(jar: seq<Cookie>): string {
    Join(HeaderPairs(jar, ""), ";")
  }

  // A cookie whose text can stand in a header without being cut or trimmed.
  ghost predicate Sendable(c: Cookie) {
    && c.name != "" && Trimmed(c.name) && ';' !in c.name && '=' !in c.name
    && Trimmed(c.value) && ';' !in c.value
  }

  function Lookup(jar: seq<Cookie>, name: string): Option<string> {
    if jar == [] then None else if jar[0].name == name then Some(jar[0].value) else Lookup(jar[1..], name)
  }

  lemma PairReads(c: Cookie, lead: string, name: string)
    requires Sendable(c) && (lead == "" || lead == " ")
    ensures ReadPair(lead + c.name + "=" + c.value, name) == if c.name == name then Found(Decode(c.value)) else Skip
  {
    hide Decode, Trim;
    var pair := lead + c.name + "=" + c.value;
    IndexOfFirst(lead + c.name, '=', c.value);
    assert pair[..|lead + c.name|] == lead + c.name;
    assert pair[|lead + c.name| + 1..] == c.value;
    TrimTrimmed(c.name);
    TrimTrimmed(c.value);
    assert "" + c.name == c.name;
  }

  lemma {:induction false} PairsRead(jar: seq<Cookie>, lead: string, name: string)
    requires (forall c | c in jar :: Sendable(c)) && (lead == "" || lead == " ")
    ensures ReadPairs(HeaderPairs(jar, lead), name) ==
            match Lookup(jar, name) case None => None case Some(v) => Decode(v)
    ensures forall p | p in HeaderPairs(jar, lead) :: ';' !in p
  {
    hide Decode, ReadPair, Trimmed;
    if jar != [] {
      PairReads(jar[0], lead, name);
      PairsRead(jar[1..], " ", name);
      var pair := lead + jar[0].name + "=" + jar[0].value;
      assert HeaderPairs(jar, lead)[0] == pair;
      assert HeaderPairs(jar, lead)[1..] == HeaderPairs(jar[1..], " ");
    }
  }

  /** Reading a browser's header finds what its jar holds: the first cookie of that name, decoded. */
  lemma HeaderReadsJar(jar: seq<Cookie>, name: string)
    requires forall c | c in jar :: Sendable(c)
    ensures CookieIn(CookieHeader(jar), name) == match Lookup(jar, name) case None => None case Some(v) => Decode(v)
  {
    hide Decode;
    if jar == [] {
    } else {
      PairsRead(jar, "", name);
      SplitJoin(HeaderPairs(jar, ""), ';');
      assert CookieHeader(jar) != "" by {
        var pairs := HeaderPairs(jar, "");
        assert '=' in pairs[0];
        assert pairs[0] <= Join(pairs, ";");
      }
    }
  }

  lemma PlainIsSendable(name: string, s: string)
    requires Plain(s) && name != "" && Trimmed(name) && ';' !in name && '=' !in name
    ensures Sendable(Cookie(name, s))
  {
    hide Trimmed;
    forall c | c in s
      ensures !IsSpace(c) && c != ';'
    {
    }
    PlainIsTrimmed(s);
  }

  lemma PlainIsTrimmed(s: string)
    requires Plain(s)
    ensures Trimmed(s)
  {
    if s != "" {
      assert s[0] in s && s[|s| - 1] in s;
    }
  }

  /** A cookie that was set is kept under its name, with its value encoded. */
  lemma KeepsWhatIsSet(name: string, value: string, maxAge: nat)
    requires name != "" && Trimmed(name) && ';' !in name && '=' !in name
    ensures Kept(SetCookie(name, value, maxAge)) == Cookie(name, Encode(value))
  {
    hide Encode;
    EncodedIsPlain(value);
    var encoded := Encode(value);
    var pair := name + "=" + encoded;
    assert ';' !in encoded;
    var rest := Join(Attributes(name, value, maxAge)[1..], "; ");
    var header := SetCookie(name, value, maxAge);
    assert header == pair + "; " + rest;
    assert header == pair + [';'] + (" " + rest);
    IndexOfFirst(pair, ';', " " + rest);
    assert header[..|pair|] == pair;
    IndexOfFirst(name, '=', encoded);
    assert pair[..|name|] == name && pair[|name| + 1..] == encoded;
    PlainIsTrimmed(encoded);
    TrimTrimmed(name);
    TrimTrimmed(encoded);
  }

  /* ------------------------------------------------------------ redirects */

  /** `safeRedirectTarget`: a path on this origin, or the fallback. */
  function SafeRedirectTarget(value: string, fallback: string): string {
    if value == "" || value[0] != '/' then fallback
    else if |value| > 1 && value[1] == '/' then fallback
    else if '\\' in value then fallback
    else if exists c | c in value :: c < ' ' then fallback
    else value
  }

  /* ------------------------------------------------------------ the last page */

  const LAST_PATH_COOKIE := "__Host-itsm-last"
  const LAST_PATH_COOKIE_SECONDS: nat := 43_200
  const LAST_PATH_MAX_BYTES: nat := 1_024

  predicate StartsSegment(path: string, segment: string) {
    && segment <= path
    && (|path| == |segment| || path[|segment|] in "/?#")
  }

  /** `NOT_A_PAGE`: routes that are not a page to come back to. */
  predicate NotAPage(path: string) {
    || StartsSegment(path, "/api") || StartsSegment(path, "/demo") || StartsSegment(path, "/resume")
    || StartsSegment(path, "/sign-in") || StartsSegment(path, "/signed-out") || StartsSegment(path, "/offline")
  }

  // A query pair that is kept: not empty, and not named `_rsc`.
  predicate KeptPair(pair: string) {
    pair != "" && pair[..IndexOf(pair, '=')] != "_rsc"
  }

  function KeptPairs(pairs: seq<string>): (kept: seq<string>)
    ensures forall p | p in kept :: p in pairs && KeptPair(p)
  {
    if pairs == [] then []
    else if KeptPair(pairs[0]) then [pairs[0]] + KeptPairs(pairs[1..])
    else KeptPairs(pairs[1..])
  }

  /** `withoutRscParameter`. */
  function WithoutRsc(path: string): string {
    var query := IndexOf(path, '?');
    if query == |path| then path
    else
      var kept := KeptPairs(Split(path[query + 1..], '&'));
      if |kept| > 0 then path[..query] + "?" + Join(kept, "&") else path[..query]
  }

  // The first 16 hex characters of the session identifier's SHA-256.
  type SessionHash = string -> string

  predicate IsHex(s: string) {
    forall c | c in s :: '0' <= c <= '9' || 'a' <= c <= 'f'
  }

  ghost predicate Hex16(h: string) {
    |h| == 16 && IsHex(h)
  }

  /** `lastPathValue`. */
  function LastPathValue(hash: SessionHash, sessionId: string, path: string): string {
    "1" + "." + hash(sessionId) + "." + Encode(WithoutRsc(path))
  }

  /** `lastPathCookie`: the `Set-Cookie` header, or None for a path not worth keeping. */
  function LastPathCookie(hash: SessionHash, sessionId: string, path: string): Option<string> {
    var page := WithoutRsc(path);
    if NotAPage(page) || SafeRedirectTarget(page, "") != page then None
    else
      var value := LastPathValue(hash, sessionId, page);
      if |Encode(value)| > LAST_PATH_MAX_BYTES then None
      else Some(SetCookie(LAST_PATH_COOKIE, value, LAST_PATH_COOKIE_SECONDS))
  }

  predicate IsLineEnd(c: char) {
    c == '\n' || c == '\r' || c == '\U{2028}' || c == '\U{2029}'
  }

  // The groups of /^([0-9]+)\.([0-9a-f]{16})\.(.+)$/.
  function MatchLastPath(value: string): Option<(string, string, string)> {
    var dot := IndexOf(value, '.');
    if dot < 1 || |value| < dot + 19 then None
    else
      var version, hash, rest := value[..dot], value[dot + 1..dot + 17], value[dot + 18..];
      if !(forall c | c in version :: '0' <= c <= '9') || !IsHex(hash) || value[dot + 17] != '.' then None
      else if exists c | c in rest :: IsLineEnd(c) then None
      else Some((version, hash, rest))
  }

  /** `resumeTarget`. */
  function ResumeTarget(hash: SessionHash, cookieValue: Option<string>, sessionId: Option<string>, fallback: string): string {
    match (cookieValue, sessionId)
    case (Some(value), Some(id)) =>
      if value == "" || id == "" then fallback
      else (
        match MatchLastPath(value)
        case None => fallback
        case Some((version, h, rest)) =>
          if version != "1" || h != hash(id) then fallback
          else (
            match Decode(rest)
            case None => fallback
            case Some(path) => if NotAPage(path) then fallback else SafeRedirectTarget(path, fallback)))
    case _ => fallback
  }

  /* ------------------------------------------------------------ the round trip */

  lemma {:induction false} KeptPairsKeepsKept(pairs: seq<string>)
    requires forall p | p in pairs :: KeptPair(p)
    ensures KeptPairs(pairs) == pairs
  {
    hide KeptPair;
    if pairs != [] {
      KeptPairsKeepsKept(pairs[1..]);
    }
  }

  /** Dropping `_rsc` once drops it for good, and touches nothing else. */
  lemma WithoutRscTwice(path: string)
    ensures WithoutRsc(WithoutRsc(path)) == WithoutRsc(path)
  {
    var query := IndexOf(path, '?');
    NotBefore(path, '?');
    if query < |path| {
      var pairs := Split(path[query + 1..], '&');
      SplitPartsFree(path[query + 1..], '&');
      var kept := KeptPairs(pairs);
      var before := path[..query];
      if |kept| > 0 {
        var tail := Join(kept, "&");
        var page := WithoutRsc(path);
        assert page == before + ['?'] + tail;
        IndexOfFirst(before, '?', tail);
        assert page[..query] == before && page[query + 1..] == tail;
        SplitJoin(kept, '&');
        KeptPairsKeepsKept(kept);
      } else {
        IndexOfNone(before, '?');
      }
    }
  }

  lemma MatchesOwnValue(h: string, rest: string)
    requires Hex16(h) && Plain(rest)
    ensures MatchLastPath("1" + "." + h + "." + rest) == if rest == "" then None else Some(("1", h, rest))
  {
    var value := "1" + "." + h + "." + rest;
    assert value == "1" + ['.'] + (h + "." + rest);
    IndexOfFirst("1", '.', h + "." + rest);
    assert value[..1] == "1" && value[2..18] == h && value[18] == '.' && value[19..] == rest;
    forall c | c in rest
      ensures !IsLineEnd(c)
    {
    }
  }

  lemma ResumesOwnValue(hash: SessionHash, sid: string, page: string, id: string, fallback: string)
    requires Hex16(hash(sid)) && !NotAPage(page)
    requires SafeRedirectTarget(page, "") == page
    ensures ResumeTarget(hash, Some("1" + "." + hash(sid) + "." + Encode(page)), Some(id), fallback) ==
            if id != "" && hash(id) == hash(sid) && page != "" then page else fallback
  {
    hide Decode, Encode, NotAPage, MatchLastPath;
    EncodedIsPlain(page);
    DecodeEncode(page);
    MatchesOwnValue(hash(sid), Encode(page));
    EncodeEmpty(page);
  }

  lemma EncodeEmpty(s: string)
    ensures Encode(s) == "" <==> s == ""
  {
  }

  /**
   * The remembered page comes back: whatever other cookies the browser sends,
   * the session it was written under resumes the page without its `_rsc`
   * parameters, and a session with another hash never does.  The one page that
   * is written and cannot be read back is the empty one.
   */
  lemma LastPathRoundTrip(hash: SessionHash, sid: string, path: string, before: seq<Cookie>, after: seq<Cookie>,
                          id: string, fallback: string)
    requires Hex16(hash(sid)) && LastPathCookie(hash, sid, path).Some?
    requires forall c | c in before + after :: Sendable(c) && c.name != LAST_PATH_COOKIE
    ensures var jar := before + [Kept(LastPathCookie(hash, sid, path).value)] + after;
            ResumeTarget(hash, CookieIn(CookieHeader(jar), LAST_PATH_COOKIE), Some(id), fallback) ==
            if id != "" && hash(id) == hash(sid) && WithoutRsc(path) != "" then WithoutRsc(path) else fallback
  {
    hide Decode, Encode, NotAPage, SafeRedirectTarget, WithoutRsc, ResumeTarget, CookieIn, CookieHeader, Kept, Trimmed, SetCookie;
    var page := WithoutRsc(path);
    WithoutRscTwice(path);
    var value := LastPathValue(hash, sid, page);
    assert value == "1" + "." + hash(sid) + "." + Encode(page);
    NameIsSound();
    KeepsWhatIsSet(LAST_PATH_COOKIE, value, LAST_PATH_COOKIE_SECONDS);
    var kept := Cookie(LAST_PATH_COOKIE, Encode(value));
    EncodedIsPlain(value);
    PlainIsSendable(LAST_PATH_COOKIE, Encode(value));
    var jar := before + [kept] + after;
    LookupMiddle(before, kept, after);
    HeaderReadsJar(jar, LAST_PATH_COOKIE);
    DecodeEncode(value);
    ResumesOwnValue(hash, sid, page, id, fallback);
  }

  lemma NameIsSound()
    ensures LAST_PATH_COOKIE != "" && Trimmed(LAST_PATH_COOKIE) && ';' !in LAST_PATH_COOKIE && '=' !in LAST_PATH_COOKIE
  {
  }

  lemma {:induction false} LookupMiddle(before: seq<Cookie>, c: Cookie, after: seq<Cookie>)
    requires forall d | d in before :: d.name != c.name
    ensures Lookup(before + [c] + after, c.name) == Some(c.value)
  {
    if before != [] {
      LookupMiddle(before[1..], c, after);
      assert (before + [c] + after)[1..] == before[1..] + [c] + after;
    }
  }
}
