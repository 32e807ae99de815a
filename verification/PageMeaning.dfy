/**
 * What the cookies and the remembered page come down to, in the words of a
 * browser: where a redirect may lead, which paths are pages, what a header says
 * (`packages/bff/src/cookies.ts`, `packages/bff/src/redirects.ts`).
 */
module PageMeaning {
  import opened Wrappers
  import opened Text
  import opened Percent
  import opened Cookies

  /* ------------------------------------------------------------ redirects */

  // A path from the root of this origin: a slash, not followed by another, with no backslash and no control character.
  ghost predicate OnThisOrigin(target: string) {
    && (exists rest {:trigger "/" + rest} :: target == "/" + rest && !("/" <= rest))
    && forall c | c in target :: c != '\\' && c >= ' '
  }

  /** A redirect leads to a path of this origin, or else to the fallback. */
  lemma RedirectsStayHere(value: string, fallback: string)
    ensures SafeRedirectTarget(value, fallback) == if OnThisOrigin(value) then value else fallback
  {
    if value != "" && value[0] == '/' {
      assert value == "/" + value[1..];
    }
  }

  /* ------------------------------------------------------------ pages */

  // Up to the next slash, question mark or hash.
  function SegmentOf(s: string): string {
    if s == "" || s[0] in "/?#" then "" else [s[0]] + SegmentOf(s[1..])
  }

  lemma {:induction false} SegmentIs(s: string, segment: string)
    requires forall c | c in segment :: c !in "/?#"
    ensures SegmentOf(s) == segment <==> segment <= s && (|s| == |segment| || s[|segment|] in "/?#")
  {
    if s != "" && segment != "" {
      assert segment[0] in segment;
      SegmentIs(s[1..], segment[1..]);
      assert segment == [segment[0]] + segment[1..];
    }
  }

  lemma StartsSegmentIs(path: string, segment: string)
    requires forall c | c in segment :: c !in "/?#"
    ensures StartsSegment(path, "/" + segment) <==> path != "" && path[0] == '/' && SegmentOf(path[1..]) == segment
  {
    if path != "" {
      SegmentIs(path[1..], segment);
      assert path == [path[0]] + path[1..];
    }
  }

  /** No page to come back to: the paths whose first segment is one of these six. */
  lemma NoPages(path: string)
    ensures NotAPage(path) <==>
            path != "" && path[0] == '/' && SegmentOf(path[1..]) in {"api", "demo", "resume", "sign-in", "signed-out", "offline"}
  {
    hide StartsSegment, SegmentOf;
    assert "/" + "api" == "/api" && "/" + "demo" == "/demo" && "/" + "resume" == "/resume";
    assert "/" + "sign-in" == "/sign-in" && "/" + "signed-out" == "/signed-out" && "/" + "offline" == "/offline";
    StartsSegmentIs(path, "api");
    StartsSegmentIs(path, "demo");
    StartsSegmentIs(path, "resume");
    StartsSegmentIs(path, "sign-in");
    StartsSegmentIs(path, "signed-out");
    StartsSegmentIs(path, "offline");
  }

  /* ------------------------------------------------------------ the query */

  predicate IsRsc(pair: string) {
    pair == "_rsc" || "_rsc=" <= pair
  }

  lemma KeptPairIs(pair: string)
    ensures KeptPair(pair) <==> pair != "" && !IsRsc(pair)
  {
    var i := IndexOf(pair, '=');
    if pair == "_rsc" {
      IndexOfNone(pair, '=');
    } else if "_rsc=" <= pair {
      assert pair == "_rsc" + ['='] + pair[5..];
      IndexOfFirst("_rsc", '=', pair[5..]);
    }
    if pair[..i] == "_rsc" {
      assert i == 4;
      assert if i == |pair| then pair == pair[..i] else pair[..5] == pair[..i] + ['='] && "_rsc" + ['='] == "_rsc=";
    }
  }

  lemma {:induction false} KeptOfTwo(a: seq<string>, b: seq<string>)
    ensures KeptPairs(a + b) == KeptPairs(a) + KeptPairs(b)
  {
    hide KeptPair;
    if a == [] {
      assert a + b == b;
    } else {
      KeptOfTwo(a[1..], b);
      assert (a + b)[1..] == a[1..] + b;
    }
  }

  /**
   * Of a query, pair by pair and in order, everything is kept but the `_rsc`
   * parameters and empty pairs; a query of which nothing is left goes with its
   * question mark, and a path without one is left alone.
   */
  lemma WithoutRscKeeps(before: string, pairs: seq<string>, a: seq<string>, b: seq<string>, pair: string)
    requires '?' !in before && pairs != [] && forall p | p in pairs :: '&' !in p
    ensures WithoutRsc(before) == before
    ensures WithoutRsc(before + "?" + Join(pairs, "&")) ==
            before + if KeptPairs(pairs) == [] then "" else "?" + Join(KeptPairs(pairs), "&")
    ensures KeptPairs(a + b) == KeptPairs(a) + KeptPairs(b)
    ensures KeptPairs([pair]) == if pair == "" || IsRsc(pair) then [] else [pair]
  {
    hide Split, Join, KeptPair;
    KeptOfTwo(a, b);
    KeptPairIs(pair);
    assert KeptPairs([]) == [] && [pair][1..] == [];
    IndexOfNone(before, '?');
    var query := Join(pairs, "&");
    var path := before + ['?'] + query;
    assert path == before + "?" + query;
    IndexOfFirst(before, '?', query);
    assert path[..|before|] == before && path[|before| + 1..] == query;
    SplitJoin(pairs, '&');
  }

  /* ------------------------------------------------------------ headers */

  /** The header in full: the pair, the whole origin, its lifetime, and out of reach of scripts, plain HTTP and other sites. */
  lemma HeaderSays(name: string, value: string, maxAge: nat)
    ensures SetCookie(name, value, maxAge) ==
            name + "=" + Encode(value) + "; Path=/; Max-Age=" + DecimalText(maxAge) + "; HttpOnly; Secure; SameSite=Lax"
  {
    hide Encode, DecimalText, Join;
    var pair, age := name + "=" + Encode(value), "Max-Age=" + DecimalText(maxAge);
    JoinOne("SameSite=Lax", "; ");
    JoinMore("Secure", ["SameSite=Lax"], ["Secure", "SameSite=Lax"], "; ");
    JoinMore("HttpOnly", ["Secure", "SameSite=Lax"], ["HttpOnly", "Secure", "SameSite=Lax"], "; ");
    JoinMore(age, ["HttpOnly", "Secure", "SameSite=Lax"], [age, "HttpOnly", "Secure", "SameSite=Lax"], "; ");
    JoinMore("Path=/", [age, "HttpOnly", "Secure", "SameSite=Lax"], ["Path=/", age, "HttpOnly", "Secure", "SameSite=Lax"], "; ");
    JoinMore(pair, ["Path=/", age, "HttpOnly", "Secure", "SameSite=Lax"], Attributes(name, value, maxAge), "; ");
    SamePieces(pair, DecimalText(maxAge));
  }

  lemma JoinOne(part: string, separator: string)
    ensures Join([part], separator) == part
  {
  }

  lemma JoinMore(part: string, rest: seq<string>, all: seq<string>, separator: string)
    requires rest != [] && all == [part] + rest
    ensures Join(all, separator) == part + separator + Join(rest, separator)
  {
    assert all[1..] == rest;
  }

  lemma SamePieces(pair: string, digits: string)
    ensures pair + "; " + ("Path=/" + "; " + (("Max-Age=" + digits) + "; " + ("HttpOnly" + "; " + ("Secure" + "; " + "SameSite=Lax")))) ==
            pair + "; Path=/; Max-Age=" + digits + "; HttpOnly; Secure; SameSite=Lax"
  {
    assert "; " + ("HttpOnly" + "; " + ("Secure" + "; " + "SameSite=Lax")) == "; HttpOnly; Secure; SameSite=Lax";
    assert "; " + ("Path=/" + "; ") + "Max-Age=" == "; Path=/; Max-Age=";
  }

  /** `encodeURIComponent` of one, two, three and four bytes, and of what it leaves alone. */
  lemma EncodesLikeABrowser()
    ensures Encode("AZaz09-_.!~*'()") == "AZaz09-_.!~*'()"
    ensures Encode("@") == "%40" && Encode("[") == "%5B" && Encode("`") == "%60" && Encode("{") == "%7B" && Encode(":") == "%3A"
    ensures Encode(" ") == "%20" && Encode("/") == "%2F" && Encode("?") == "%3F" && Encode("\U{00e9}") == "%C3%A9"
    ensures Encode("\U{20ac}") == "%E2%82%AC" && Encode("\U{1f600}") == "%F0%9F%98%80"
  {
    hide Encode, EncodeChar;
    EncodeLetters("AZaz09-_.!~*'()");
    EncodeOne('@');
    EncodeOne('[');
    EncodeOne('`');
    EncodeOne('{');
    EncodeOne(':');
    Neighbours();
    EncodeOne(' ');
    EncodeOne('/');
    EncodeOne('?');
    EncodeOne('\U{00e9}');
    EncodeOne('\U{20ac}');
    EncodeOne('\U{1f600}');
    OneByte();
    MoreBytes();
  }

  lemma OneByte()
    ensures EncodeChar(' ') == "%20" && EncodeChar('/') == "%2F" && EncodeChar('?') == "%3F"
  {
  }

  lemma Neighbours()
    ensures EncodeChar('@') == "%40" && EncodeChar('[') == "%5B" && EncodeChar('`') == "%60"
    ensures EncodeChar('{') == "%7B" && EncodeChar(':') == "%3A"
  {
  }

  lemma MoreBytes()
    ensures EncodeChar('\U{00e9}') == "%C3%A9" && EncodeChar('\U{20ac}') == "%E2%82%AC" && EncodeChar('\U{1f600}') == "%F0%9F%98%80"
  {
    hide IsUnreserved, EncodeCode;
    NotUnreserved();
    TwoBytes();
    ThreeBytes();
    FourBytes();
  }

  lemma TwoBytes()
    ensures EncodeCode(0xe9) == "%C3%A9"
  {
    assert EncodeByte(0xC3) == "%C3" && EncodeByte(0xA9) == "%A9";
  }

  lemma ThreeBytes()
    ensures EncodeCode(0x20ac) == "%E2%82%AC"
  {
    assert EncodeByte(0xE2) == "%E2" && EncodeByte(0x82) == "%82" && EncodeByte(0xAC) == "%AC";
  }

  lemma FourBytes()
    ensures EncodeCode(0x1f600) == "%F0%9F%98%80"
  {
    hide EncodeByte;
    FourByteTexts();
    assert "%F0" + "%9F" == "%F0%9F" && "%F0%9F" + "%98" == "%F0%9F%98" && "%F0%9F%98" + "%80" == "%F0%9F%98%80";
  }

  lemma FourByteTexts()
    ensures EncodeByte(0xF0) == "%F0" && EncodeByte(0x9F) == "%9F" && EncodeByte(0x98) == "%98" && EncodeByte(0x80) == "%80"
  {
  }

  lemma NotUnreserved()
    ensures !IsUnreserved('\U{00e9}') && !IsUnreserved('\U{20ac}') && !IsUnreserved('\U{1f600}')
  {
  }

  /** Hex digits of an escape are read in either case. */
  lemma EscapesInEitherCase(n: nat)
    requires n < 16
    ensures HexValue("0123456789abcdef"[n]) == HexValue("0123456789ABCDEF"[n]) == Some(n)
  {
  }

  lemma {:induction false} EncodeLetters(s: string)
    requires forall c | c in s :: IsUnreserved(c)
    ensures Encode(s) == s
  {
    if s != "" {
      assert s[0] in s;
      EncodeLetters(s[1..]);
    }
  }

  lemma EncodeOne(c: char)
    ensures Encode([c]) == EncodeChar(c)
  {
    assert [c][1..] == "" && Encode("") == "";
  }

  /** What is no UTF-8 is refused: overlong forms, surrogates, points past the last, and sequences cut short. */
  lemma DecodeRefuses()
    ensures Decode("%C0%AF") == None && Decode("%ED%A0%80") == None && Decode("%F4%90%80%80") == None
    ensures Decode("%80") == None && Decode("%E2%82") == None && Decode("%2") == None && Decode("%GG") == None
    ensures Decode("%C3%C3") == None && Decode("%C3%C0") == None && Decode("%C3A9") == None
  {
    hide ReadEscape;
    LongFormsRefused();
    CutShortRefused();
  }

  lemma LongFormsRefused()
    ensures ReadEscape("%C0%AF") == None && ReadEscape("%ED%A0%80") == None && ReadEscape("%F4%90%80%80") == None
  {
  }

  lemma CutShortRefused()
    ensures ReadEscape("%80") == None && ReadEscape("%E2%82") == None && ReadEscape("%2") == None && ReadEscape("%GG") == None
    ensures ReadEscape("%C3%C3") == None && ReadEscape("%C3%C0") == None && ReadEscape("%C3A9") == None
  {
  }

  /* ------------------------------------------------------------ the remembered page */

  ghost predicate IsPage(page: string) {
    OnThisOrigin(page) && SegmentOf(page[1..]) !in {"api", "demo", "resume", "sign-in", "signed-out", "offline"}
  }

  /** A page is remembered for twelve hours, exactly where it is one, or nothing at all, and is short enough once written. */
  lemma RememberedIff(hash: SessionHash, sid: string, path: string)
    ensures var page := WithoutRsc(path);
            var written := Encode("1." + hash(sid) + "." + Encode(page));
            LastPathCookie(hash, sid, path) ==
            if (page == "" || IsPage(page)) && |written| <= 1024
            then Some("__Host-itsm-last=" + written + "; Path=/; Max-Age=43200; HttpOnly; Secure; SameSite=Lax")
            else None
  {
    hide NotAPage, SafeRedirectTarget, WithoutRsc, Encode, SegmentOf, SetCookie, DecimalText;
    var page := WithoutRsc(path);
    WithoutRscTwice(path);
    NoPages(page);
    RedirectsStayHere(page, "");
    var value := "1." + hash(sid) + "." + Encode(page);
    assert "1" + "." + hash(sid) + "." + Encode(page) == value;
    HeaderSays("__Host-itsm-last", value, 43_200);
    TwelveHours();
    TwoHalves(Encode(value));
  }

  lemma TwelveHours()
    ensures DecimalText(43_200) == "43200"
  {
    assert DecimalText(4) == "4" && DecimalText(43) == "43" && DecimalText(432) == "432" && DecimalText(4320) == "4320";
  }

  lemma TwoHalves(written: string)
    ensures "__Host-itsm-last" + "=" + written + "; Path=/; Max-Age=" + "43200" + "; HttpOnly; Secure; SameSite=Lax" ==
            "__Host-itsm-last=" + written + "; Path=/; Max-Age=43200; HttpOnly; Secure; SameSite=Lax"
  {
    FrontHalf();
    BackHalf();
    Regrouped("__Host-itsm-last", written, "; Path=/; Max-Age=", "; HttpOnly; Secure; SameSite=Lax");
  }

  lemma Regrouped(name: string, written: string, before: string, after: string)
    ensures name + "=" + written + before + "43200" + after == (name + "=") + written + (before + "43200" + after)
  {
  }

  lemma FrontHalf()
    ensures "__Host-itsm-last" + "=" == "__Host-itsm-last="
  {
  }

  lemma BackHalf()
    ensures "; Path=/; Max-Age=" + "43200" + "; HttpOnly; Secure; SameSite=Lax" == "; Path=/; Max-Age=43200; HttpOnly; Secure; SameSite=Lax"
  {
  }

  lemma HexIs(s: string)
    ensures IsHex(s) <==> forall c | c in s :: c in "0123456789abcdef"
  {
  }

  // The value that remembers this page for this session.
  ghost predicate Remembers(hash: SessionHash, value: string, id: string, page: string) {
    exists rest {:trigger "1." + hash(id) + "." + rest} ::
      value == "1." + hash(id) + "." + rest && rest != "" && (forall c | c in rest :: !IsLineEnd(c)) && Decode(rest) == Some(page)
  }

  lemma MatchesPrefix(h: string, value: string, rest: string)
    requires Hex16(h) && value == "1." + h + "." + rest
    ensures MatchLastPath(value) == if rest == "" || (exists c | c in rest :: IsLineEnd(c)) then None else Some(("1", h, rest))
  {
    hide IsLineEnd;
    assert value == "1" + ['.'] + (h + "." + rest);
    IndexOfFirst("1", '.', h + "." + rest);
    assert value[..1] == "1" && value[2..18] == h && value[18] == '.' && value[19..] == rest;
  }

  lemma MatchIsPrefix(value: string)
    requires MatchLastPath(value).Some?
    ensures var (version, h, rest) := MatchLastPath(value).value;
            value == version + "." + h + "." + rest && rest != "" && forall c | c in rest :: !IsLineEnd(c)
  {
    hide IsLineEnd, IsHex;
    var dot := IndexOf(value, '.');
    assert value == value[..dot] + "." + value[dot + 1..dot + 17] + "." + value[dot + 18..];
  }

  lemma MatchedValue(hash: SessionHash, value: string, id: string, page: string)
    requires Hex16(hash(id))
    ensures Remembers(hash, value, id, page) <==>
            match MatchLastPath(value)
            case None => false
            case Some((version, h, rest)) => version == "1" && h == hash(id) && Decode(rest) == Some(page)
  {
    hide MatchLastPath, Decode, IsLineEnd;
    if rest :| value == "1." + hash(id) + "." + rest && rest != "" && (forall c | c in rest :: !IsLineEnd(c)) && Decode(rest) == Some(page) {
      MatchesPrefix(hash(id), value, rest);
    }
    if MatchLastPath(value).Some? {
      MatchIsPrefix(value);
      var (version, h, rest) := MatchLastPath(value).value;
      assert version == "1" ==> value == "1." + h + "." + rest;
    }
  }

  /** The visitor is taken back to a page if and only if the cookie remembers it for this very session; otherwise the fallback. */
  lemma ResumesIff(hash: SessionHash, cookie: Option<string>, session: Option<string>, fallback: string, page: string)
    requires session.Some? ==> Hex16(hash(session.value))
    ensures var target := ResumeTarget(hash, cookie, session, fallback);
            && (cookie.Some? && session.Some? && session.value != "" && Remembers(hash, cookie.value, session.value, page) ==>
                  target == if IsPage(page) then page else fallback)
            && (cookie == None || session == None || session == Some("")
                || (forall p :: !Remembers(hash, cookie.value, session.value, p))
                ==> target == fallback)
  {
    hide MatchLastPath, Decode, NotAPage, SafeRedirectTarget, IsPage, Remembers;
    if cookie.Some? && session.Some? {
      forall p
        ensures Remembers(hash, cookie.value, session.value, p) <==>
                match MatchLastPath(cookie.value)
                case None => false
                case Some((version, h, rest)) => version == "1" && h == hash(session.value) && Decode(rest) == Some(p)
      {
        MatchedValue(hash, cookie.value, session.value, p);
      }
      EmptyDoesNotMatch();
    }
    forall p
      ensures (if NotAPage(p) then fallback else SafeRedirectTarget(p, fallback)) == if IsPage(p) then p else fallback
    {
      PageOrFallback(p, fallback);
    }
  }

  lemma EmptyDoesNotMatch()
    ensures MatchLastPath("") == None
  {
  }

  lemma PageOrFallback(p: string, fallback: string)
    ensures (if NotAPage(p) then fallback else SafeRedirectTarget(p, fallback)) == if IsPage(p) then p else fallback
  {
    hide NotAPage, SafeRedirectTarget, SegmentOf;
    NoPages(p);
    RedirectsStayHere(p, fallback);
  }
}
