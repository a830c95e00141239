/**
 * The background worker: the root-domain fallback of the session lookup, the
 * Tooling API endpoint, the two bridge handlers and the message router.
 */
module Background {
  import opened Wrappers
  import opened Protocol

  // ---------------------------------------------------------------------------
  // Host names as dot-separated labels
  // ---------------------------------------------------------------------------

  predicate DotFree(s: string) {
    forall i :: 0 <= i < |s| ==> s[i] != '.'
  }

  /** `s.split('.')`: never empty; `"".split('.')` is `[""]`. */
  function Split(s: string): (r: seq<string>)
    ensures |r| >= 1
    ensures forall k :: 0 <= k < |r| ==> DotFree(r[k])
  {
    if s == [] then [""]
    else if s[0] == '.' then [""] + Split(s[1..])
    else
      var rest := Split(s[1..]);
      [[s[0]] + rest[0]] + rest[1..]
  }

  /** `labels.join('.')`. */
  function Join(labels: seq<string>): string {
    if labels == [] then ""
    else if |labels| == 1 then labels[0]
    else labels[0] + "." + Join(labels[1..])
  }

  lemma JoinConsHead(c: char, r: seq<string>)
    requires |r| >= 1
    ensures Join([[c] + r[0]] + r[1..]) == [c] + Join(r)
  {
    var ls := [[c] + r[0]] + r[1..];
    if |r| > 1 {
      assert ls[1..] == r[1..];
    }
  }

  /** Joining the pieces of a split gives back the string. */
  lemma {:induction false} JoinSplit(s: string)
    ensures Join(Split(s)) == s
  {
    if s != [] {
      JoinSplit(s[1..]);
      if s[0] == '.' {
        assert ([""] + Split(s[1..]))[1..] == Split(s[1..]);
      } else {
        JoinConsHead(s[0], Split(s[1..]));
      }
    }
  }

  lemma {:induction false} SplitLabelThen(x: string, t: string)
    requires DotFree(x)
    ensures Split(x + "." + t) == [x] + Split(t)
  {
    if x != [] {
      assert (x + "." + t)[1..] == x[1..] + "." + t;
      SplitLabelThen(x[1..], t);
      assert [x[0]] + x[1..] == x;
    }
  }

  lemma {:induction false} SplitLabel(x: string)
    requires DotFree(x)
    ensures Split(x) == [x]
  {
    if x != [] {
      SplitLabel(x[1..]);
      assert [x[0]] + x[1..] == x;
    }
  }

  /** Splitting a join of dot-free labels gives back the labels. */
  lemma {:induction false} SplitJoin(labels: seq<string>)
    requires |labels| >= 1
    requires forall k :: 0 <= k < |labels| ==> DotFree(labels[k])
    ensures Split(Join(labels)) == labels
  {
    if |labels| == 1 {
      SplitLabel(labels[0]);
    } else {
      SplitJoin(labels[1..]);
      SplitLabelThen(labels[0], Join(labels[1..]));
    }
  }

  /** A join splits at any inner label boundary. */
  lemma {:induction false} JoinAt(labels: seq<string>, k: nat)
    requires 0 < k < |labels|
    ensures Join(labels) == Join(labels[..k]) + "." + Join(labels[k..])
  {
    if k > 1 {
      JoinAt(labels[1..], k - 1);
      assert labels[..k][1..] == labels[1..][..k - 1];
      assert labels[1..][k - 1..] == labels[k..];
    }
  }

  /** `labels.slice(-2)`: the last two labels, or all of them when there are fewer. */
  function LastTwo(labels: seq<string>): seq<string> {
    if |labels| <= 2 then labels else labels[|labels| - 2..]
  }

  /** `domain.split('.').slice(-2).join('.')`. */
  function RootDomain(host: string): string {
    Join(LastTwo(Split(host)))
  }

  /**
   * The root domain is made of the host's last two labels (all of them when there
   * are at most two, so such a host is its own root), and it is a dot-separated
   * suffix of the host otherwise.
   */
  lemma RootDomainLabels(host: string)
    ensures Split(RootDomain(host)) == LastTwo(Split(host))
    ensures |Split(host)| <= 2 ==> RootDomain(host) == host
    ensures |Split(host)| > 2 ==>
      var root := RootDomain(host);
      && |root| < |host|
      && host[|host| - |root| - 1] == '.'
      && host[|host| - |root|..] == root
  {
    var labels := Split(host);
    JoinSplit(host);
    SplitJoin(LastTwo(labels));
    if |labels| > 2 {
      JoinAt(labels, |labels| - 2);
    }
  }

  /** Taking the root domain twice changes nothing. */
  lemma RootDomainIdempotent(host: string)
    ensures RootDomain(RootDomain(host)) == RootDomain(host)
  {
    RootDomainLabels(host);
    RootDomainLabels(RootDomain(host));
  }

  // ---------------------------------------------------------------------------
  // The session lookup
  // ---------------------------------------------------------------------------

  const SessionCookieName: string := "sid"
  const SessionNotFound: string := "Session ID not found. Please log in to Salesforce."

  /** `chrome.cookies.getAll({domain, name})`. */
  datatype CookieQuery = CookieQuery(domain: string, name: string)

  /** The browser's cookie store: the values of the cookies a query matches, in the store's order. */
  type CookieStore = CookieQuery -> seq<string>

  /** What `getSessionId` settles to, with the cookie queries it issued on the way. */
  datatype SessionLookup = SessionLookup(result: Result<string, string>, queries: seq<CookieQuery>)

  /**
   * `getSessionId(url)`, given the outcome of parsing `url` for its hostname (an error
   * message when the parse throws): the hostname's `sid` cookie, else the root
   * domain's, else the not-found error.
   */
  function GetSessionId(hostname: Result<string, string>, cookies: CookieStore): SessionLookup {
    match hostname
    case Err(message) => SessionLookup(Err(message), [])
    case Ok(host) =>
      var first := CookieQuery(host, SessionCookieName);
      if |cookies(first)| > 0 then SessionLookup(Ok(cookies(first)[0]), [first])
      else
        var second := CookieQuery(RootDomain(host), SessionCookieName);
        if |cookies(second)| > 0 then SessionLookup(Ok(cookies(second)[0]), [first, second])
        else SessionLookup(Err(SessionNotFound), [first, second])
  }

  /** An independent reference: the first `sid` value found over a list of domains tried in order. */
  function FirstSessionCookie(cookies: CookieStore, domains: seq<string>): Option<string> {
    if domains == [] then None
    else
      var found := cookies(CookieQuery(domains[0], SessionCookieName));
      if |found| > 0 then Some(found[0]) else FirstSessionCookie(cookies, domains[1..])
  }

  /** The domains tried up to and including the first that has a `sid` cookie. */
  function TriedDomains(cookies: CookieStore, domains: seq<string>): seq<string> {
    if domains == [] then []
    else if |cookies(CookieQuery(domains[0], SessionCookieName))| > 0 then [domains[0]]
    else [domains[0]] + TriedDomains(cookies, domains[1..])
  }

  /**
   * `getSessionId` is the ordered search over hostname then root domain: it succeeds
   * with the first cookie found, the root domain is queried only when the hostname
   * has none, and it fails with the not-found message exactly when neither has one.
   */
  lemma GetSessionIdIsOrderedSearch(host: string, cookies: CookieStore)
    ensures var r := GetSessionId(Ok(host), cookies);
      var domains := [host, RootDomain(host)];
      && (r.result.Ok? <==> FirstSessionCookie(cookies, domains).Some?)
      && (r.result.Ok? ==> r.result.value == FirstSessionCookie(cookies, domains).value)
      && (r.result.Err? ==> r.result.error == SessionNotFound)
      && |r.queries| == |TriedDomains(cookies, domains)|
      && (forall k :: 0 <= k < |r.queries| ==>
            r.queries[k] == CookieQuery(TriedDomains(cookies, domains)[k], SessionCookieName))
  {
    var domains := [host, RootDomain(host)];
    assert domains[1..] == [RootDomain(host)];
    assert domains[1..][1..] == [];
    var first := CookieQuery(host, SessionCookieName);
    var second := CookieQuery(RootDomain(host), SessionCookieName);
    if |cookies(first)| > 0 {
      assert TriedDomains(cookies, domains) == [host];
    } else {
      assert FirstSessionCookie(cookies, domains[1..][1..]) == None;
      assert FirstSessionCookie(cookies, domains[1..])
        == if |cookies(second)| > 0 then Some(cookies(second)[0]) else None;
      assert TriedDomains(cookies, domains[1..]) == [RootDomain(host)];
      assert TriedDomains(cookies, domains) == [host, RootDomain(host)];
      assert FirstSessionCookie(cookies, domains) == FirstSessionCookie(cookies, domains[1..]);
    }
  }

  /** An unparsable address fails with the parser's message and touches no cookie. */
  lemma GetSessionIdBadAddress(message: string, cookies: CookieStore)
    ensures GetSessionId(Err(message), cookies) == SessionLookup(Err(message), [])
  {
  }

  // ---------------------------------------------------------------------------
  // The Tooling API request
  // ---------------------------------------------------------------------------

  const Scheme: string := "https://"
  const FlowResourcePath: string := "/services/data/v60.0/tooling/sobjects/Flow/"

  /** The Flow record's Tooling API address on `host`. */
  function Endpoint(host: string, flowId: string): string {
    Scheme + host + FlowResourcePath + flowId
  }

  function IndexOf(s: string, c: char): (r: Option<nat>)
    ensures r.Some? ==> r.value < |s| && s[r.value] == c && forall i :: 0 <= i < r.value ==> s[i] != c
    ensures r.None? ==> forall i :: 0 <= i < |s| ==> s[i] != c
  {
    if s == [] then None
    else if s[0] == c then Some(0)
    else match IndexOf(s[1..], c)
      case Some(i) => Some(i + 1)
      case None => None
  }

  /** Reads host and flow id back out of an endpoint address. */
  function ParseEndpoint(url: string): Option<(string, string)> {
    if |url| < |Scheme| || url[..|Scheme|] != Scheme then None
    else
      var rest := url[|Scheme|..];
      match IndexOf(rest, '/')
      case None => None
      case Some(slash) =>
        var path := rest[slash..];
        if |path| < |FlowResourcePath| || path[..|FlowResourcePath|] != FlowResourcePath then None
        else Some((rest[..slash], path[|FlowResourcePath|..]))
  }

  /** A hostname holds no `/`, so the endpoint determines host and flow id. */
  lemma EndpointRoundTrip(host: string, flowId: string)
    requires forall i :: 0 <= i < |host| ==> host[i] != '/'
    ensures ParseEndpoint(Endpoint(host, flowId)) == Some((host, flowId))
  {
    var url := Endpoint(host, flowId);
    assert url[..|Scheme|] == Scheme;
    var rest := url[|Scheme|..];
    assert rest == host + FlowResourcePath + flowId;
    assert FlowResourcePath[0] == '/';
    assert rest[|host|] == FlowResourcePath[0];
    var slash := IndexOf(rest, '/');
    assert slash == Some(|host|);
    var path := rest[|host|..];
    assert path == FlowResourcePath + flowId;
    assert path[..|FlowResourcePath|] == FlowResourcePath;
    assert path[|FlowResourcePath|..] == flowId;
    assert rest[..|host|] == host;
  }

  datatype HttpRequest = HttpRequest(url: string, headers: seq<(string, string)>)

  function FlowRequest(host: string, flowId: string, sessionId: string): HttpRequest {
    HttpRequest(Endpoint(host, flowId), [("Authorization", "Bearer " + sessionId), ("Accept", "application/xml")])
  }

  /** What `fetch` settles to: a response (`ok`, `statusText`, the body text), or a rejection. */
  datatype FetchOutcome = Response(ok: bool, statusText: string, body: string) | NetworkFailure(message: string)

  /**
   * The browser facilities the worker calls: the URL parser's hostname (or its error
   * message), the cookie store and the network.
   */
  datatype Environment = Environment(
    hostOf: string -> Result<string, string>,
    cookies: CookieStore,
    fetch: HttpRequest -> FetchOutcome)

  /** A handler's reply, with the request it sent over the network, if any. */
  datatype Bridged = Bridged(reply: Reply, fetched: Option<HttpRequest>)

  const FetchFailedPrefix: string := "Failed to fetch Flow: "
  const SaveUnsupported: string :=
    "Direct XML patching via Tooling API is not supported. Use the 'Download' feature to get the XML, or wait for the Metadata API integration."

  /** `handleGetFlowXml(flowId, url)`: every failure on the way becomes a failed reply. */
  function HandleGetFlowXml(flowId: Option<string>, url: string, env: Environment): Bridged {
    var session := GetSessionId(env.hostOf(url), env.cookies);
    match session.result
    case Err(message) => Bridged(Failed(message), None)
    case Ok(sessionId) =>
      var request := FlowRequest(env.hostOf(url).value, Str(flowId), sessionId);
      match env.fetch(request)
      case NetworkFailure(message) => Bridged(Failed(message), Some(request))
      case Response(ok, statusText, body) =>
        if ok then Bridged(Fetched(body), Some(request))
        else Bridged(Failed(FetchFailedPrefix + statusText), Some(request))
  }

  /**
   * The fetch path: a request goes out exactly when a session was found, to the flow's
   * endpoint with the bearer token; the reply succeeds exactly on an ok response and
   * then carries its body; otherwise it carries the session error, the status text or
   * the rejection's message.
   */
  lemma HandleGetFlowXmlOutcome(flowId: Option<string>, url: string, env: Environment)
    ensures var b := HandleGetFlowXml(flowId, url, env);
      var session := GetSessionId(env.hostOf(url), env.cookies);
      && WellFormed(b.reply)
      && (b.fetched.Some? <==> session.result.Ok?)
      && (session.result.Err? ==> b.reply == Failed(session.result.error))
      && (session.result.Ok? ==>
            && env.hostOf(url).Ok?
            && b.fetched == Some(FlowRequest(env.hostOf(url).value, Str(flowId), session.result.value))
            && var outcome := env.fetch(b.fetched.value);
            && (b.reply.success <==> outcome.Response? && outcome.ok)
            && (outcome.Response? && outcome.ok ==> b.reply.xml == Some(outcome.body))
            && (outcome.Response? && !outcome.ok ==> b.reply.error == Some(FetchFailedPrefix + outcome.statusText))
            && (outcome.NetworkFailure? ==> b.reply.error == Some(outcome.message)))
  {
  }

  /**
   * `handleSaveFlowXml(flowId, xml, url)`: it never writes anything. Its reply is the
   * session error, or the fixed "not supported" error once a session is found.
   */
  function HandleSaveFlowXml(flowId: Option<string>, xml: Option<string>, url: string, env: Environment): Reply {
    var session := GetSessionId(env.hostOf(url), env.cookies);
    match session.result
    case Err(message) => Failed(message)
    case Ok(_) => Failed(SaveUnsupported)
  }

  /** Saving never succeeds, and its reply depends on neither the XML nor the flow id. */
  lemma SaveNeverSucceeds(flowId: Option<string>, xml: Option<string>, otherId: Option<string>, otherXml: Option<string>,
                          url: string, env: Environment)
    ensures var r := HandleSaveFlowXml(flowId, xml, url, env);
      && WellFormed(r) && !r.success
      && r == HandleSaveFlowXml(otherId, otherXml, url, env)
      && var session := GetSessionId(env.hostOf(url), env.cookies);
      && (session.result.Ok? ==> r.error == Some(SaveUnsupported))
      && (session.result.Err? ==> r.error == Some(session.result.error))
  {
  }

  // ---------------------------------------------------------------------------
  // The router
  // ---------------------------------------------------------------------------

  datatype Tab = Tab(url: Option<string>)

  /** The message's sender: a tab's content script, or an extension page with no tab. */
  datatype Sender = Sender(tab: Option<Tab>)

  /** What the sender's callback receives, if anything. */
  datatype Answer = Replied(reply: Reply) | RepliedUrl(url: Option<string>) | NoAnswer

  /** The listener's effect: whether it keeps the channel open (returns `true`), the answer, and any fetch. */
  datatype Routed = Routed(keepsChannelOpen: bool, answer: Answer, fetched: Option<HttpRequest>)

  /** `request.url || sender.tab.url`; `None` where reading `sender.tab.url` throws. */
  function TargetUrl(request: Request, sender: Sender): Option<string> {
    if request.url.Some? && request.url.value != "" then request.url
    else if sender.tab.Some? then Some(Str(sender.tab.value.url))
    else None
  }

  /**
   * The `onMessage` listener: a dispatch on `request.action`. `activeTab` is the
   * active tab of the current window, when there is one.
   */
  function Route(request: Request, sender: Sender, env: Environment, activeTab: Option<Tab>): Routed {
    if request.action == GetFlowXmlAction then
      match TargetUrl(request, sender)
      case None => Routed(false, NoAnswer, None)
      case Some(url) =>
        var b := HandleGetFlowXml(request.flowId, url, env);
        Routed(true, Replied(b.reply), b.fetched)
    else if request.action == SaveFlowXmlAction then
      match TargetUrl(request, sender)
      case None => Routed(false, NoAnswer, None)
      case Some(url) => Routed(true, Replied(HandleSaveFlowXml(request.flowId, request.xml, url, env)), None)
    else if request.action == GetCurrentTabUrlAction then
      match activeTab
      case Some(tab) => Routed(true, RepliedUrl(tab.url), None)
      case None => Routed(true, NoAnswer, None)
    else Routed(false, NoAnswer, None)
  }

  /**
   * The router keeps the channel open for exactly the three known actions (unless the
   * target address cannot be read), answers every bridged request with a well-formed
   * reply, never answers an unknown action, and fetches only for `getFlowXml`.
   */
  lemma RouteContract(request: Request, sender: Sender, env: Environment, activeTab: Option<Tab>)
    ensures var r := Route(request, sender, env, activeTab);
      var bridged := request.action == GetFlowXmlAction || request.action == SaveFlowXmlAction;
      && (r.keepsChannelOpen <==>
            (bridged && TargetUrl(request, sender).Some?) || request.action == GetCurrentTabUrlAction)
      && (bridged && TargetUrl(request, sender).Some? ==> r.answer.Replied? && WellFormed(r.answer.reply))
      && (r.answer.Replied? ==> bridged)
      && (r.answer.RepliedUrl? <==> request.action == GetCurrentTabUrlAction && activeTab.Some?)
      && (r.fetched.Some? ==> request.action == GetFlowXmlAction)
  {
    assert GetFlowXmlAction != SaveFlowXmlAction && GetFlowXmlAction != GetCurrentTabUrlAction
      && SaveFlowXmlAction != GetCurrentTabUrlAction by {
      assert GetFlowXmlAction[0] != SaveFlowXmlAction[0];
      assert |GetFlowXmlAction| != |GetCurrentTabUrlAction|;
      assert SaveFlowXmlAction[0] != GetCurrentTabUrlAction[0];
    }
    if request.action == GetFlowXmlAction && TargetUrl(request, sender).Some? {
      HandleGetFlowXmlOutcome(request.flowId, TargetUrl(request, sender).value, env);
    } else if request.action == SaveFlowXmlAction && TargetUrl(request, sender).Some? {
      SaveNeverSucceeds(request.flowId, request.xml, request.flowId, request.xml, TargetUrl(request, sender).value, env);
    }
  }

  /** A truthy `request.url` wins over the sender's tab; otherwise the tab's address is used. */
  lemma TargetUrlPrecedence(request: Request, sender: Sender)
    ensures request.url.Some? && request.url.value != "" ==> TargetUrl(request, sender) == request.url
    ensures !(request.url.Some? && request.url.value != "") ==>
      (TargetUrl(request, sender).Some? <==> sender.tab.Some?)
      && (sender.tab.Some? ==> TargetUrl(request, sender) == Some(Str(sender.tab.value.url)))
  {
  }
}
