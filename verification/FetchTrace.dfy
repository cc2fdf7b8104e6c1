/** Which URLs are accepted, and which calls and which outcome a fetch consists of: accounts that name none of the steps. */
module FetchTrace {
  import opened Text
  import opened JsonStringify
  import opened Scope
  import opened UrlPolicy
  import opened WebFetch

  // ---- accepted URLs ----

  /** A host without its one trailing dot. */
  predicate Strips(full: Str, host: Str) {
    full == host + [DOT] || (full == host && (host == [] || host[|host| - 1] != DOT))
  }

  predicate IsQuad(labels: seq<Str>) {
    |labels| == 4 && forall i | 0 <= i < 4 :: Decimal(labels[i]) && DecimalValue(labels[i]) <= 255
  }

  /** Neither loopback, private, link-local, shared, unspecified nor multicast. */
  predicate OutsideBlocks(a: nat, b: nat) {
    && a != 127 && a != 10 && !(a == 172 && 16 <= b <= 31) && !(a == 192 && b == 168)
    && !(a == 169 && b == 254) && !(a == 100 && 64 <= b <= 127) && a != 0 && !(224 <= a <= 239)
  }

  predicate LabelUnit(u: CodeUnit) { u in LOWER_CASE || u in DIGITS }

  /** Up to 63 letters, digits and hyphens, with no hyphen at the ends. */
  predicate LabelText(s: Str) {
    && 1 <= |s| <= 63 && LabelUnit(s[0]) && LabelUnit(s[|s| - 1])
    && forall i | 1 <= i < |s| - 1 :: LabelUnit(s[i]) || s[i] in Ascii("-")
  }

  predicate PublicHost(host: Str) {
    var labels := Split(host, '.' as int);
    && host != [] && ':' as int !in host && labels[|labels| - 1] != Ascii("localhost")
    && if IsQuad(labels) then OutsideBlocks(DecimalValue(labels[0]), DecimalValue(labels[1]))
       else |labels| >= 2 && |host| <= 253 && forall i | 0 <= i < |labels| :: LabelText(labels[i])
  }

  lemma LabelExactly(s: Str)
    ensures DnsLabel(s) <==> LabelText(s)
  {
    assert Ascii("-") == [0x2D];
    forall u: CodeUnit ensures LowerAlnum(u) <==> LabelUnit(u) {
      LowerLetters(u);
      DigitLetters(u);
    }
    hide LowerAlnum, LabelUnit;
  }

  lemma QuadExactly(host: Str)
    ensures var labels := Split(host, DOT);
            && (Ipv4(host).Some? <==> IsQuad(labels))
            && (IsQuad(labels) ==> (Denied(Ipv4(host).value) <==> !OutsideBlocks(DecimalValue(labels[0]), DecimalValue(labels[1]))))
  {
    hide Split, DecimalValue, Denied;
    var labels := Split(host, DOT);
    if IsQuad(labels) {
      FourWeighted(labels);
      DeniedQuads(DecimalValue(labels[0]), DecimalValue(labels[1]), DecimalValue(labels[2]), DecimalValue(labels[3]));
    }
  }

  lemma HostExactly(host: Str)
    ensures Public(host) <==> PublicHost(host)
  {
    QuadExactly(host);
    LabelsOf(host);
    forall s: Str ensures DnsLabel(s) <==> LabelText(s) {
      LabelExactly(s);
    }
    hide Ipv4, Denied, DnsLabel, LabelText, IsQuad, OutsideBlocks, EndsWith, Split, DecimalValue;
  }

  /** A text is accepted, with this canonical form, exactly for a short plain https URL to a public host. */
  lemma AcceptedExactly(env: Env, raw: Str, url: Str)
    ensures Validated(env, raw) == Some(url) <==>
              && 1 <= |raw| <= 2048 && (forall i | 0 <= i < |raw| :: raw[i] >= 0x20 && raw[i] != 0x7F)
              && env.parse(raw).Some?
              && var p := env.parse(raw).value;
                 && p.protocol == Ascii("https:") && p.username == [] == p.password && p.hash == [] == p.port && p.href == url
                 && exists host :: Strips(env.lower(p.hostname), host) && PublicHost(host)
  {
    hide Public, PublicHost;
    if env.parse(raw).Some? {
      var p := env.parse(raw).value;
      var full, host := env.lower(p.hostname), HostOf(env, p);
      HostExactly(host);
      if full != [] && full[|full| - 1] == DOT {
        assert full == host + [DOT];
      }
      forall other | Strips(full, other) ensures other == host {
        if full == other + [DOT] {
          assert full[..|full| - 1] == other;
        }
      }
      assert Strips(full, host);
    }
  }

  // ---- the calls of a fetch ----

  /** Every call but the first goes where the redirect before it points. */
  predicate Redirected(env: Env, provider: Provider, urls: seq<Str>) {
    forall i | 0 <= i < |urls| - 1 ::
      provider(i, urls[i]).Redirect? && Validated(env, provider(i, urls[i]).location) == Some(urls[i + 1])
  }

  /** What a page that was answered comes to. */
  predicate Delivers(env: Env, page: Response, redirected: bool, o: Outcome)
    requires page.Page?
  {
    var title := if CodePoints(page.title) <= 512 then page.title else TakePoints(page.title, 512) + [0x2026] + Ascii("[truncated]");
    if Validated(env, page.url).None? then o == Failed(FinalRefused)
    else if |Validated(env, page.url).value| > 2048 || |title| > 544 then o == Failed(Failure.ContractFailed)
    else
      && o.Fetched? && o.url == Validated(env, page.url).value && o.title == title && o.redirected == redirected
      && o.body <= page.body && (o.truncated <==> Utf8Length(page.body) > 128 * 1024) && (!o.truncated ==> o.body == page.body)
      && Utf8Length(o.body) <= 128 * 1024
  }

  /** The answer to the last call decides, and there are at most three redirects. */
  predicate Ends(env: Env, provider: Provider, urls: seq<Str>, o: Outcome)
    requires urls != []
  {
    var n := |urls| - 1;
    n <= 3 && match provider(n, urls[n])
    case TimedOut => o == Failed(Timeout)
    case Threw => o == Failed(ProviderFailure)
    case ProviderError => o == Failed(ErrorReply)
    case Page(_, _, _) => Delivers(env, provider(n, urls[n]), n > 0, o)
    case Redirect(location) =>
      if n == 3 then o == Failed(RedirectLimit) else Validated(env, location).None? && o == Failed(RedirectRefused)
  }

  lemma DeliverExactly(env: Env, page: Response, redirected: bool)
    requires page.Page?
    ensures Delivers(env, page, redirected, Deliver(env, page, redirected))
  {
    hide Validated, Utf8Length, Bounded, TakePoints, CodePoints;
    BoundedFits(page.body, MAX_RESPONSE_BYTES);
    var marker: Str := [0x2026] + Ascii("[truncated]");
    assert marker == MARKER;
    assert TakePoints(page.title, 512) + [0x2026] + Ascii("[truncated]") == TakePoints(page.title, 512) + MARKER;
  }

  lemma {:induction false} FollowExactly(env: Env, provider: Provider, before: seq<Str>, url: Str, hop: nat)
    requires hop <= MAX_REDIRECTS && |before| == hop && Redirected(env, provider, before + [url])
    ensures var (o, more) := Follow(env, provider, url, hop, hop > 0);
            more != [] && more[0] == url && Redirected(env, provider, before + more) && Ends(env, provider, before + more, o)
    decreases MAX_REDIRECTS - hop
  {
    hide Validated, Deliver, Delivers, Redirected;
    FollowStep(env, provider, url, hop, hop > 0);
    var urls := before + [url];
    match provider(hop, url)
    case Page(_, _, _) => DeliverExactly(env, provider(hop, url), hop > 0);
    case Redirect(location) =>
      var next := Validated(env, location);
      if hop < MAX_REDIRECTS && next.Some? {
        OneMore(env, provider, urls, next.value);
        FollowExactly(env, provider, urls, next.value, hop + 1);
        var rest := Follow(env, provider, next.value, hop + 1, true).1;
        assert urls + rest == before + ([url] + rest);
      }
    case _ =>
  }

  lemma OneMore(env: Env, provider: Provider, urls: seq<Str>, next: Str)
    requires urls != [] && Redirected(env, provider, urls)
    requires var n := |urls| - 1;
             provider(n, urls[n]).Redirect? && Validated(env, provider(n, urls[n]).location) == Some(next)
    ensures Redirected(env, provider, urls + [next])
  {
    hide Validated;
  }

  /**
   * A fetch is a chain of calls: the first goes to the canonical form of what was asked for, each
   * further one to where the redirect before it points, and the last answer decides the outcome.
   */
  lemma FetchExactly(env: Env, provider: Provider, raw: Str, started: bool)
    ensures var (o, urls) := Fetch(env, provider, raw, started);
            if Validated(env, raw).None? then o == UrlRefused && urls == []
            else if !started then o == AuditRefused && urls == []
            else
              && urls != [] && urls[0] == Validated(env, raw).value
              && Redirected(env, provider, urls) && Ends(env, provider, urls, o)
  {
    hide Validated, Follow, Ends;
    if Validated(env, raw).Some? && started {
      var url := Validated(env, raw).value;
      assert Redirected(env, provider, [] + [url]);
      FollowExactly(env, provider, [], url, 0);
      var urls := Follow(env, provider, url, 0, false).1;
      assert [] + urls == urls;
    }
  }

  // ---- whole code points ----

  /** Taking code points never leaves half of a pair, and with their number this fixes what is taken. */
  lemma {:induction false} TakesWholePoints(s: Str, n: nat)
    ensures var r := TakePoints(s, n);
            && r <= s && CodePoints(r) == (if n <= CodePoints(s) then n else CodePoints(s))
            && (CodePoints(r) + CodePoints(s[|r|..]) == CodePoints(s))
    decreases |s|
  {
    TakenPoints(s, n);
    hide CodePoints;
    if s == [] || n == 0 {
      assert s[0..] == s;
      NoPoints();
    } else {
      var k := if StartsPair(s) then 2 else 1;
      TakesWholePoints(s[k..], n - 1);
      var t := TakePoints(s[k..], n - 1);
      assert TakePoints(s, n) == s[..k] + t && s[k..][|t|..] == s[k + |t|..];
      FirstPoints(s, k);
    }
  }

  lemma NoPoints()
    ensures CodePoints([]) == 0
  {
  }

  lemma FirstPoints(s: Str, k: nat)
    requires s != [] && k == if StartsPair(s) then 2 else 1
    ensures CodePoints(s) == 1 + CodePoints(s[k..])
  {
  }
}
