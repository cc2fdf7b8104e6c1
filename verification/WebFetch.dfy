/**
 * The redirect loop and the result bounds of src/web/service.ts. The provider is a function of the
 * hop and the URL it is given.
 */
module WebFetch {
  import opened Text
  import opened UrlPolicy
  import opened MemoryPersistence

  const MAX_REDIRECTS: nat := 3
  const MAX_RESPONSE_BYTES: nat := 128 * 1024
  const MAX_TITLE_CHARS: nat := 512
  const MAX_TITLE_UNITS: nat := MAX_TITLE_CHARS + 32
  const SHRINK_STEP: nat := 1024
  const MARKER: Str := [0x2026] + Ascii("[truncated]")

  // ---- texts cut by code points ----

  predicate StartsPair(s: Str) { |s| >= 2 && IsHighSurrogate(s[0]) && IsLowSurrogate(s[1]) }

  /** Array.from(s).slice(0, n).join("") */
  function TakePoints(s: Str, n: nat): (r: Str)
    ensures r <= s
    decreases |s|
  {
    if s == [] || n == 0 then []
    else if StartsPair(s) then
      assert s == s[..2] + s[2..];
      s[..2] + TakePoints(s[2..], n - 1)
    else
      assert s == s[..1] + s[1..];
      s[..1] + TakePoints(s[1..], n - 1)
  }

  /** truncateText with its marker. */
  function TruncateText(s: Str, maxChars: nat): (Str, bool) {
    if CodePoints(s) <= maxChars then (s, false) else (TakePoints(s, maxChars) + MARKER, true)
  }

  /** boundBytes: drops code points from the end until the text fits. */
  function Bounded(s: Str, cap: nat): Str
    decreases CodePoints(s)
  {
    if Utf8Length(s) <= cap then s
    else if CodePoints(s) <= SHRINK_STEP then TakePoints(s, if CodePoints(s) == 0 then 0 else CodePoints(s) - 1)
    else
      TakenPoints(s, CodePoints(s) - SHRINK_STEP);
      Bounded(TakePoints(s, CodePoints(s) - SHRINK_STEP), cap)
  }

  lemma {:induction false} TakenPoints(s: Str, n: nat)
    ensures CodePoints(TakePoints(s, n)) == if n <= CodePoints(s) then n else CodePoints(s)
    ensures n >= CodePoints(s) ==> TakePoints(s, n) == s
    decreases |s|
  {
    if s != [] && n > 0 {
      var k := if StartsPair(s) then 2 else 1;
      var t := TakePoints(s[k..], n - 1);
      TakenPoints(s[k..], n - 1);
      assert TakePoints(s, n)[k..] == t;
      assert s == s[..k] + s[k..];
      if k == 1 {
        KeepsSingle(s, t);
      }
    }
  }

  /** A unit that starts no pair starts none in front of a prefix of what followed it. */
  lemma KeepsSingle(s: Str, t: Str)
    requires s != [] && !StartsPair(s) && t <= s[1..]
    ensures !StartsPair(s[..1] + t)
  {
  }

  /** A text of n code points takes at most 4 n bytes. */
  lemma {:induction false} PointBytes(s: Str)
    ensures Utf8Length(s) <= 4 * CodePoints(s)
    decreases |s|
  {
    if s == [] {
    } else {
      PointBytes(s[if s[0] >= 0x800 && StartsPair(s) then 2 else 1..]);
    }
  }

  method BoundBytes(text: Str, cap: nat) returns (r: Str, truncated: bool)
    ensures r == Bounded(text, cap)
    ensures truncated <==> Utf8Length(text) > cap
  {
    hide Utf8Length, TakePoints;
    r, truncated := text, false;
    while true
      invariant Bounded(r, cap) == Bounded(text, cap)
      invariant if truncated then Utf8Length(text) > cap else r == text
      decreases CodePoints(r)
    {
      if Utf8Length(r) <= cap {
        return;
      }
      truncated := true;
      var points := CodePoints(r);
      if points <= SHRINK_STEP {
        r := TakePoints(r, if points == 0 then 0 else points - 1);
        return;
      }
      TakenPoints(r, points - SHRINK_STEP);
      r := TakePoints(r, points - SHRINK_STEP);
    }
  }

  lemma {:induction false} TakeTake(s: Str, m: nat, n: nat)
    requires n <= m
    ensures TakePoints(TakePoints(s, m), n) == TakePoints(s, n)
    decreases |s|
  {
    if s != [] && n > 0 {
      var k := if StartsPair(s) then 2 else 1;
      var t := TakePoints(s[k..], m - 1);
      TakeTake(s[k..], m - 1, n - 1);
      var u := s[..k] + t;
      assert TakePoints(s, m) == u && u[..k] == s[..k] && u[k..] == t;
      if k == 1 {
        KeepsSingle(s, t);
      } else {
        assert StartsPair(u);
      }
    }
  }

  /**
   * From 4096 bytes on, the cut text fits its bound, is a whole number of code points from the
   * start, and loses less than one step more than it must.
   */
  lemma {:induction false} BoundedFits(s: Str, cap: nat)
    requires cap >= 4 * SHRINK_STEP
    ensures var r := Bounded(s, cap);
            && Utf8Length(r) <= cap
            && (r == s <==> Utf8Length(s) <= cap)
            && r == TakePoints(s, CodePoints(r))
            && (r != s ==> CodePoints(r) + SHRINK_STEP <= CodePoints(s) && Utf8Length(TakePoints(s, CodePoints(r) + SHRINK_STEP)) > cap)
    decreases CodePoints(s)
  {
    hide Utf8Length, TakePoints, CodePoints;
    TakenPoints(s, CodePoints(s));
    PointBytes(s);
    if Utf8Length(s) > cap {
      var m := CodePoints(s) - SHRINK_STEP;
      var t := TakePoints(s, m);
      TakenPoints(s, m);
      BoundedFits(t, cap);
      var r := Bounded(t, cap);
      TakenPoints(t, CodePoints(r));
      TakeTake(s, m, CodePoints(r));
      if r != t {
        TakeTake(s, m, CodePoints(r) + SHRINK_STEP);
      }
    }
  }

  lemma {:induction false} BoundedStaysWithin(s: Str, cap: nat)
    requires cap >= 4 * (SHRINK_STEP - 1)
    ensures Utf8Length(Bounded(s, cap)) <= cap
    decreases CodePoints(s)
  {
    hide Utf8Length, TakePoints, CodePoints;
    TakenPoints(s, CodePoints(s));
    PointBytes(s);
    if Utf8Length(s) <= cap {
    } else if CodePoints(s) <= SHRINK_STEP {
      TakenPoints(s, CodePoints(s) - 1);
      PointBytes(TakePoints(s, CodePoints(s) - 1));
    } else {
      TakenPoints(s, CodePoints(s) - SHRINK_STEP);
      BoundedStaysWithin(TakePoints(s, CodePoints(s) - SHRINK_STEP), cap);
    }
  }

  lemma {:induction false} TakeFaces(faces: nat, n: nat)
    requires n <= faces
    ensures TakePoints(LongText(faces, 0), n) == LongText(n, 0)
    decreases faces
  {
    if n == 0 {
    } else {
      TakeFaces(faces - 1, n - 1);
      assert LongText(faces, 0)[2..] == LongText(faces - 1, 0);
    }
  }

  ghost predicate AlwaysFits(cap: nat) { forall s :: Utf8Length(Bounded(s, cap)) <= cap }

  /**
   * The last cut is not measured again. So the bound is met for every text exactly from the size
   * of 1023 four-byte characters on, which the bound in use is far above.
   */
  lemma FitsFromExactly(cap: nat)
    ensures AlwaysFits(cap) <==> cap >= 4 * (SHRINK_STEP - 1)
    ensures AlwaysFits(MAX_RESPONSE_BYTES)
  {
    hide Utf8Length, TakePoints, CodePoints, LongText, Bounded;
    forall s: Str, c: nat | c >= 4 * (SHRINK_STEP - 1) ensures Utf8Length(Bounded(s, c)) <= c {
      BoundedStaysWithin(s, c);
    }
    if cap < 4 * (SHRINK_STEP - 1) {
      FacesMissTheBound(cap);
    }
  }

  lemma FacesMissTheBound(cap: nat)
    requires cap < 4 * (SHRINK_STEP - 1)
    ensures Utf8Length(Bounded(LongText(SHRINK_STEP, 0), cap)) > cap
  {
    hide Utf8Length, TakePoints, CodePoints, LongText;
    LongTextSize(SHRINK_STEP, 0);
    LongTextSize(SHRINK_STEP - 1, 0);
    TakeFaces(SHRINK_STEP, SHRINK_STEP - 1);
  }

  // ---- the redirect loop ----

  datatype Response =
    | TimedOut
    | Threw
    | Redirect(location: Str)
    | ProviderError
    | Page(url: Str, title: Str, body: Str)

  datatype Failure = Timeout | ProviderFailure | RedirectLimit | RedirectRefused | ErrorReply | FinalRefused | ContractFailed

  datatype Outcome =
    | UrlRefused
    | AuditRefused
    | Failed(failure: Failure)
    | Fetched(url: Str, title: Str, body: Str, truncated: bool, redirected: bool)

  type Provider = (nat, Str) -> Response

  /** The last stretch of a fetch: final URL, bounds and result contract. */
  function Deliver(env: Env, page: Response, redirected: bool): Outcome
    requires page.Page?
  {
    var final := Validated(env, page.url);
    var title := TruncateText(page.title, MAX_TITLE_CHARS).0;
    if final.None? then Failed(FinalRefused)
    else if |final.value| > MAX_URL_CHARS || |title| > MAX_TITLE_UNITS then Failed(ContractFailed)
    else
      Fetched(final.value, title, Bounded(page.body, MAX_RESPONSE_BYTES), Utf8Length(page.body) > MAX_RESPONSE_BYTES, redirected)
  }

  /** The loop from some hop on, with the URLs given to the provider. */
  function Follow(env: Env, provider: Provider, url: Str, hop: nat, redirected: bool): (Outcome, seq<Str>)
    requires hop <= MAX_REDIRECTS
    decreases MAX_REDIRECTS - hop
  {
    match provider(hop, url)
    case TimedOut => (Failed(Timeout), [url])
    case Threw => (Failed(ProviderFailure), [url])
    case ProviderError => (Failed(ErrorReply), [url])
    case Page(_, _, _) => (Deliver(env, provider(hop, url), redirected), [url])
    case Redirect(location) =>
      if hop >= MAX_REDIRECTS then (Failed(RedirectLimit), [url])
      else
        var next := Validated(env, location);
        if next.None? then (Failed(RedirectRefused), [url])
        else
          var (o, urls) := Follow(env, provider, next.value, hop + 1, true);
          (o, [url] + urls)
  }

  function Fetch(env: Env, provider: Provider, raw: Str, started: bool): (Outcome, seq<Str>) {
    var first := Validated(env, raw);
    if first.None? then (UrlRefused, [])
    else if !started then (AuditRefused, [])
    else Follow(env, provider, first.value, 0, false)
  }

  lemma FollowStep(env: Env, provider: Provider, url: Str, hop: nat, redirected: bool)
    requires hop <= MAX_REDIRECTS
    ensures Follow(env, provider, url, hop, redirected) ==
              match provider(hop, url)
              case TimedOut => (Failed(Timeout), [url])
              case Threw => (Failed(ProviderFailure), [url])
              case ProviderError => (Failed(ErrorReply), [url])
              case Page(_, _, _) => (Deliver(env, provider(hop, url), redirected), [url])
              case Redirect(location) =>
                if hop >= MAX_REDIRECTS then (Failed(RedirectLimit), [url])
                else if Validated(env, location).None? then (Failed(RedirectRefused), [url])
                else
                  var rest := Follow(env, provider, Validated(env, location).value, hop + 1, true);
                  (rest.0, [url] + rest.1)
  {
    hide Validated, Deliver;
  }

  method DeliverPage(env: Env, page: Response, redirected: bool) returns (o: Outcome)
    requires page.Page?
    ensures o == Deliver(env, page, redirected)
  {
    hide Validated, Bounded, Utf8Length;
    var final := ValidateFetchUrl(env, page.url);
    if final.None? {
      return Failed(FinalRefused);
    }
    var text, truncated := BoundBytes(page.body, MAX_RESPONSE_BYTES);
    var title := TruncateText(page.title, MAX_TITLE_CHARS).0;
    if |final.value| > MAX_URL_CHARS || |title| > MAX_TITLE_UNITS {
      return Failed(ContractFailed);
    }
    return Fetched(final.value, title, text, truncated, redirected);
  }

  /** runFetch; `urls` are those the provider was called with. */
  method RunFetch(env: Env, provider: Provider, raw: Str, started: bool) returns (o: Outcome, ghost urls: seq<Str>)
    ensures o == Fetch(env, provider, raw, started).0
    ensures urls == Fetch(env, provider, raw, started).1
  {
    hide Validated, Deliver, Follow;
    urls := [];
    var first := ValidateFetchUrl(env, raw);
    if first.None? {
      return UrlRefused, urls;
    }
    if !started {
      return AuditRefused, urls;
    }
    var current := first.value;
    var redirected := false;
    var hop := 0;
    ghost var whole := Follow(env, provider, current, 0, false);
    assert [] + whole.1 == whole.1;
    while hop <= MAX_REDIRECTS
      invariant hop <= MAX_REDIRECTS
      invariant whole.0 == Follow(env, provider, current, hop, redirected).0
      invariant whole.1 == urls + Follow(env, provider, current, hop, redirected).1
      decreases MAX_REDIRECTS - hop
    {
      var res := provider(hop, current);
      FollowStep(env, provider, current, hop, redirected);
      ghost var before := urls;
      urls := urls + [current];
      match res {
        case TimedOut => return Failed(Timeout), urls;
        case Threw => return Failed(ProviderFailure), urls;
        case ProviderError => return Failed(ErrorReply), urls;
        case Redirect(location) =>
          if hop >= MAX_REDIRECTS {
            return Failed(RedirectLimit), urls;
          }
          var next := ValidateFetchUrl(env, location);
          if next.None? {
            return Failed(RedirectRefused), urls;
          }
          ghost var more := Follow(env, provider, next.value, hop + 1, true).1;
          assert before + ([current] + more) == urls + more;
          current, redirected, hop := next.value, true, hop + 1;
        case Page(_, _, _) =>
          o := DeliverPage(env, res, redirected);
          return o, urls;
      }
    }
    // the return behind the loop cannot be reached
    assert false;
  }

  /** The URL is the canonical text of one that the policy accepted. */
  ghost predicate Approved(env: Env, url: Str) { exists raw: Str :: Validated(env, raw) == Some(url) }

  lemma {:induction false} FollowIsSafe(env: Env, provider: Provider, url: Str, hop: nat, redirected: bool)
    requires hop <= MAX_REDIRECTS && Approved(env, url)
    ensures var (o, urls) := Follow(env, provider, url, hop, redirected);
            && 1 <= |urls| <= MAX_REDIRECTS + 1 - hop
            && (forall u | u in urls :: Approved(env, u))
            && (o.Fetched? ==> Approved(env, o.url) && (o.redirected <==> redirected || |urls| > 1))
            && (o.Fetched? ==> Utf8Length(o.body) <= MAX_RESPONSE_BYTES && |o.title| <= MAX_TITLE_UNITS && |o.url| <= MAX_URL_CHARS)
            && !o.UrlRefused? && !o.AuditRefused?
    decreases MAX_REDIRECTS - hop
  {
    hide Validated, TruncateText, Bounded, Utf8Length;
    match provider(hop, url)
    case Page(u, _, body) =>
      BoundedFits(body, MAX_RESPONSE_BYTES);
    case Redirect(location) =>
      var next := Validated(env, location);
      if hop < MAX_REDIRECTS && next.Some? {
        FollowIsSafe(env, provider, next.value, hop + 1, true);
      }
    case _ =>
  }

  /**
   * A fetch calls the provider at most four times, only with approved URLs and not at all before
   * the start is on record; what it delivers comes from an approved URL and is within all bounds.
   */
  lemma FetchIsSafe(env: Env, provider: Provider, raw: Str, started: bool)
    ensures var (o, urls) := Fetch(env, provider, raw, started);
            && |urls| <= 4 && (forall u | u in urls :: Approved(env, u))
            && (urls == [] <==> o.UrlRefused? || o.AuditRefused?)
            && (!started ==> urls == [])
            && (o.Fetched? ==> Approved(env, o.url) && (o.redirected <==> |urls| > 1))
            && (o.Fetched? ==> Utf8Length(o.body) <= MAX_RESPONSE_BYTES && |o.title| <= MAX_TITLE_UNITS && |o.url| <= MAX_URL_CHARS)
  {
    hide Validated, Follow, Utf8Length;
    var first := Validated(env, raw);
    if first.Some? && started {
      assert Approved(env, first.value);
      FollowIsSafe(env, provider, first.value, 0, false);
    }
  }

  /**
   * A page title is cut by code points but checked by UTF-16 units: this title of 512 code points
   * is not cut and fails the whole fetch.
   */
  lemma AstralTitleFails(env: Env, url: Str, body: Str, redirected: bool)
    requires Validated(env, url).Some?
    ensures CodePoints(LongText(33, 479)) == MAX_TITLE_CHARS
    ensures Deliver(env, Page(url, LongText(33, 479), body), redirected) == Failed(ContractFailed)
  {
    hide LongText, Validated, Bounded, Utf8Length, CodePoints;
    LongTextSize(33, 479);
  }

  /** Units of a text: one for each code point and one more for each pair. */
  function Pairs(s: Str): nat
    decreases |s|
  {
    if s == [] then 0 else if StartsPair(s) then 1 + Pairs(s[2..]) else Pairs(s[1..])
  }

  lemma {:induction false} UnitsArePointsAndPairs(s: Str)
    ensures |s| == CodePoints(s) + Pairs(s)
    decreases |s|
  {
    if s == [] {
    } else {
      UnitsArePointsAndPairs(s[if StartsPair(s) then 2 else 1..]);
    }
  }

  /** Exactly when a title passes: few enough pairs among the code points that are kept. */
  lemma TitlePassesExactly(title: Str)
    ensures var (t, cut) := TruncateText(title, MAX_TITLE_CHARS);
            |t| <= MAX_TITLE_UNITS <==>
              if CodePoints(title) <= MAX_TITLE_CHARS then CodePoints(title) + Pairs(title) <= 544
              else Pairs(TakePoints(title, MAX_TITLE_CHARS)) <= 20
  {
    hide CodePoints, Pairs, TakePoints;
    UnitsArePointsAndPairs(title);
    UnitsArePointsAndPairs(TakePoints(title, MAX_TITLE_CHARS));
    TakenPoints(title, MAX_TITLE_CHARS);
    assert |MARKER| == 12;
  }
}
