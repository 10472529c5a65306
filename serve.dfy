/**
 * The HTTP side of the site: the GitHub OAuth callback, the catch-all route that
 * gates the documentation, and the login page's GET and POST handlers. A handler
 * acts on the response by appending effects to it; the identity provider, the
 * sponsorship query, the deployment-mode flag, the decrypted session cookie and
 * the collections are inputs.
 */
module Serve {
  import opened Wrappers
  import opened Content
  import opened Sponsorable

  const LoginPage := "/authenticate"
  const FirstPage := "/docs/installation"
  const LoginView := "authenticate.edge"
  const FlashCookie := "flash_messages"
  const SessionCookie := "oauth_token"
  const SessionMaxAge := "7 days"
  const RedirectFailedMessage := "Unable to redirect to Github"
  const PageNotFoundMessage := "Page not found"

  /** Why the callback turns the user back to the login page. */
  datatype Reason = AccessDenied | StateMisMatch | LoginFatalError | NotASponsor

  /** The flash message text for each reason. */
  function Message(r: Reason): string
  {
    match r
    case AccessDenied => "Access denied. You have cancelled the login process"
    case StateMisMatch => "We are unable to verify the request. Please refresh this page and try login again"
    case LoginFatalError => "Github authentication failed. Please try again"
    case NotASponsor => "Not authorized. The documentation is available for sponsors only"
  }

  /** The value of the `flash_messages` cookie: `{ error: message }`. */
  datatype Flash = Flash(error: string)

  /** What a handler does to the response, in order. */
  datatype Effect =
    | CookieSet(name: string, flash: Flash)
    | EncryptedCookieSet(name: string, value: Option<string>, maxAge: string, httpOnly: bool)
    | CookieCleared(name: string)
    | RedirectedTo(url: string)
    | ProviderRedirect
    | Downloaded(path: string)
    | EntryRendered(collection: nat, entry: Entry)
    | ViewRendered(view: string, shown: Option<Flash>)
    | NotFoundSent(message: string)

  predicate IsRedirect(e: Effect)
  {
    e.RedirectedTo? || e.ProviderRedirect?
  }

  predicate IsCookieWrite(e: Effect)
  {
    e.CookieSet? || e.EncryptedCookieSet?
  }

  function CountRedirects(es: seq<Effect>): nat
  {
    if es == [] then 0 else (if IsRedirect(es[0]) then 1 else 0) + CountRedirects(es[1..])
  }

  function CountCookieWrites(es: seq<Effect>): nat
  {
    if es == [] then 0 else (if IsCookieWrite(es[0]) then 1 else 0) + CountCookieWrites(es[1..])
  }

  /** The counts of a two-effect response, effect by effect. */
  lemma CountPair(a: Effect, b: Effect)
    ensures CountRedirects([a, b]) == (if IsRedirect(a) then 1 else 0) + (if IsRedirect(b) then 1 else 0)
    ensures CountCookieWrites([a, b]) == (if IsCookieWrite(a) then 1 else 0) + (if IsCookieWrite(b) then 1 else 0)
  {
    var es := [a, b];
    assert [b][1..] == [];
    assert CountRedirects([b]) == (if IsRedirect(b) then 1 else 0);
    assert CountCookieWrites([b]) == (if IsCookieWrite(b) then 1 else 0);
    assert es[1..] == [b];
  }

  /** The HTTP response of one request, as the list of effects applied to it so far. */
  class Response {
    var effects: seq<Effect>

    constructor ()
      ensures effects == []
    {
      effects := [];
    }

    /** `response.cookie(name, flash)`: a signed cookie holding the flash message. */
    method Cookie(name: string, flash: Flash)
      modifies this
      ensures effects == old(effects) + [CookieSet(name, flash)]
    {
      effects := effects + [CookieSet(name, flash)];
    }

    /** `response.encryptedCookie(name, value, { maxAge, httpOnly })`. */
    method EncryptedCookie(name: string, value: Option<string>, maxAge: string, httpOnly: bool)
      modifies this
      ensures effects == old(effects) + [EncryptedCookieSet(name, value, maxAge, httpOnly)]
    {
      effects := effects + [EncryptedCookieSet(name, value, maxAge, httpOnly)];
    }

    method ClearCookie(name: string)
      modifies this
      ensures effects == old(effects) + [CookieCleared(name)]
    {
      effects := effects + [CookieCleared(name)];
    }

    method Redirect(url: string)
      modifies this
      ensures effects == old(effects) + [RedirectedTo(url)]
    {
      effects := effects + [RedirectedTo(url)];
    }

    /** What the handler returns (a rendered page, a download, a redirect), written to the response. */
    method Send(e: Effect)
      modifies this
      ensures effects == old(effects) + [e]
    {
      effects := effects + [e];
    }
  }

  /** What the GitHub driver reports about the callback request, and the profile's `login`. */
  datatype GithubCallback = GithubCallback(accessDenied: bool, stateMisMatch: bool, hasError: bool, login: Option<string>)

  /** JavaScript truthiness of a string that may be undefined: defined and not empty. */
  predicate Truthy(v: Option<string>)
  {
    v.Some? && v.value != ""
  }

  /** How a callback ends: turned back with a flash message, or signed in. */
  datatype CallbackOutcome = Rejected(reason: Reason) | SignedIn(login: Option<string>)

  /**
   * The callback's decision chain: denial, state mismatch and provider error are
   * checked in that order and the first that holds decides; a missing username is let
   * in without asking the oracle; otherwise the oracle, over the given allow-list,
   * decides. The handler as written uses `AllowedUsernamesAsWritten`.
   */
  function Callback(allowList: seq<string>, gh: GithubCallback, sponsorship: QueryOutcome): (o: CallbackOutcome)
    ensures gh.accessDenied ==> o == Rejected(AccessDenied)
    ensures !gh.accessDenied && gh.stateMisMatch ==> o == Rejected(StateMisMatch)
    ensures !gh.accessDenied && !gh.stateMisMatch && gh.hasError ==> o == Rejected(LoginFatalError)
    ensures o.SignedIn? <==>
              && !gh.accessDenied && !gh.stateMisMatch && !gh.hasError
              && (!Truthy(gh.login) || Decide(allowList, gh.login.value, sponsorship))
    ensures o.SignedIn? ==> o.login == gh.login
  {
    if gh.accessDenied then Rejected(AccessDenied)
    else if gh.stateMisMatch then Rejected(StateMisMatch)
    else if gh.hasError then Rejected(LoginFatalError)
    else
      var isUserASponsor := if !Truthy(gh.login) then true else Decide(allowList, gh.login.value, sponsorship);
      if !isUserASponsor then Rejected(NotASponsor) else SignedIn(gh.login)
  }

  /** The effects of each outcome: one cookie write, then one redirect. */
  function CallbackEffects(o: CallbackOutcome): seq<Effect>
  {
    match o
    case Rejected(reason) => [CookieSet(FlashCookie, Flash(Message(reason))), RedirectedTo(LoginPage)]
    case SignedIn(login) => [EncryptedCookieSet(SessionCookie, login, SessionMaxAge, true), RedirectedTo(FirstPage)]
  }

  /** The ending of every rejected callback: the flash message, then the login page. */
  method TurnBack(message: string, response: Response)
    modifies response
    ensures response.effects == old(response.effects) + [CookieSet(FlashCookie, Flash(message)), RedirectedTo(LoginPage)]
  {
    ghost var before := response.effects;
    response.Cookie(FlashCookie, Flash(message));
    response.Redirect(LoginPage);
    assert response.effects == before + [CookieSet(FlashCookie, Flash(message))] + [RedirectedTo(LoginPage)];
  }

  /** GET /authenticate/callback. */
  method AuthenticateCallback(allowList: seq<string>, gh: GithubCallback, sponsorship: QueryOutcome, response: Response)
    modifies response
    ensures response.effects == old(response.effects) + CallbackEffects(Callback(allowList, gh, sponsorship))
  {
    if gh.accessDenied {
      TurnBack(Message(AccessDenied), response);
      return;
    }
    if gh.stateMisMatch {
      TurnBack(Message(StateMisMatch), response);
      return;
    }
    if gh.hasError {
      TurnBack(Message(LoginFatalError), response);
      return;
    }
    var username := gh.login;
    var isUserASponsor := false;
    if !Truthy(username) {
      isUserASponsor := true;
    } else {
      isUserASponsor := Decide(allowList, username.value, sponsorship);
    }
    assert Callback(allowList, gh, sponsorship) == if isUserASponsor then SignedIn(username) else Rejected(NotASponsor);
    if !isUserASponsor {
      TurnBack(Message(NotASponsor), response);
      return;
    }
    response.EncryptedCookie(SessionCookie, username, SessionMaxAge, true);
    response.Redirect(FirstPage);
  }

  /** Every way through the callback writes exactly one cookie and redirects exactly once. */
  lemma CallbackWritesOneCookieAndRedirectsOnce(allowList: seq<string>, gh: GithubCallback, sponsorship: QueryOutcome)
    ensures CountCookieWrites(CallbackEffects(Callback(allowList, gh, sponsorship))) == 1
    ensures CountRedirects(CallbackEffects(Callback(allowList, gh, sponsorship))) == 1
  {
    OutcomeWritesOneCookieAndRedirectsOnce(Callback(allowList, gh, sponsorship));
  }

  lemma OutcomeWritesOneCookieAndRedirectsOnce(o: CallbackOutcome)
    ensures CountCookieWrites(CallbackEffects(o)) == 1
    ensures CountRedirects(CallbackEffects(o)) == 1
  {
    var es := CallbackEffects(o);
    CountPair(es[0], es[1]);
    assert es == [es[0], es[1]];
  }

  /**
   * The session cookie is written only when the user is let in, and then it holds
   * the username, lives seven days, is httpOnly and is followed by a redirect to the
   * first documentation page; every other way ends with a flash message and a
   * redirect to the login page.
   */
  lemma SessionCookieOnlyOnSuccess(allowList: seq<string>, gh: GithubCallback, sponsorship: QueryOutcome)
    ensures var es := CallbackEffects(Callback(allowList, gh, sponsorship));
            (exists i :: 0 <= i < |es| && es[i].EncryptedCookieSet?) <==> Callback(allowList, gh, sponsorship).SignedIn?
    ensures var es := CallbackEffects(Callback(allowList, gh, sponsorship));
            Callback(allowList, gh, sponsorship).SignedIn? ==>
              es == [EncryptedCookieSet("oauth_token", gh.login, "7 days", true), RedirectedTo("/docs/installation")]
    ensures var es := CallbackEffects(Callback(allowList, gh, sponsorship));
            Callback(allowList, gh, sponsorship).Rejected? ==>
              es == [CookieSet("flash_messages", Flash(Message(Callback(allowList, gh, sponsorship).reason))), RedirectedTo("/authenticate")]
  {
    OutcomeSessionCookie(Callback(allowList, gh, sponsorship));
  }

  lemma OutcomeSessionCookie(o: CallbackOutcome)
    ensures var es := CallbackEffects(o);
            (exists i :: 0 <= i < |es| && es[i].EncryptedCookieSet?) <==> o.SignedIn?
    ensures o.SignedIn? ==>
              CallbackEffects(o) == [EncryptedCookieSet("oauth_token", o.login, "7 days", true), RedirectedTo("/docs/installation")]
    ensures o.Rejected? ==>
              CallbackEffects(o) == [CookieSet("flash_messages", Flash(Message(o.reason))), RedirectedTo("/authenticate")]
  {
    var es := CallbackEffects(o);
    if o.SignedIn? {
      assert es[0].EncryptedCookieSet?;
    }
  }

  /** A user who is not let in gets the sponsors-only message. */
  lemma NonSponsorIsToldSo(allowList: seq<string>, gh: GithubCallback, sponsorship: QueryOutcome)
    requires !gh.accessDenied && !gh.stateMisMatch && !gh.hasError
    requires Truthy(gh.login) && !Decide(allowList, gh.login.value, sponsorship)
    ensures CallbackEffects(Callback(allowList, gh, sponsorship))[0]
            == CookieSet(FlashCookie, Flash("Not authorized. The documentation is available for sponsors only"))
  {
  }

  /**
   * The handler as written turns the listed user JASON-SHQ without a sponsorship back
   * as no sponsor; with the corrected allow-list the same callback signs them in.
   */
  lemma {:induction false} AsWrittenCallbackTurnsBackListedUser()
    ensures var gh := GithubCallback(false, false, false, Some("JASON-SHQ"));
            && Callback(AllowedUsernamesAsWritten, gh, NoSponsorship) == Rejected(NotASponsor)
            && Callback(AllowedUsernames, gh, NoSponsorship) == SignedIn(Some("JASON-SHQ"))
  {
    AsWrittenDeniesListedUser();
  }

  /** Without a username the oracle is not consulted: the outcome is the same for every query result. */
  lemma MissingUsernameSkipsOracle(allowList: seq<string>, gh: GithubCallback, s1: QueryOutcome, s2: QueryOutcome)
    requires !Truthy(gh.login)
    ensures Callback(allowList, gh, s1) == Callback(allowList, gh, s2)
    ensures !gh.accessDenied && !gh.stateMisMatch && !gh.hasError ==> Callback(allowList, gh, s1) == SignedIn(gh.login)
  {
  }

  /** The path of the pre-rendered page for a URL, relative to the application root. */
  function StaticPath(url: string): string
  {
    "dist" + url + ".html"
  }

  /** The index of the first collection that has an entry at `url`, searching from `from`. */
  function FirstCollectionWith(collections: seq<Collection>, url: string, from: nat): (r: Option<nat>)
    requires from <= |collections|
    decreases |collections| - from
    ensures r.Some? ==> from <= r.value < |collections| && FindByPermalink(collections[r.value], url).Some?
    ensures r.Some? ==> forall c :: from <= c < r.value ==> FindByPermalink(collections[c], url).None?
    ensures r.None? ==> forall c :: from <= c < |collections| ==> FindByPermalink(collections[c], url).None?
  {
    if from == |collections| then None
    else if FindByPermalink(collections[from], url).Some? then Some(from)
    else FirstCollectionWith(collections, url, from + 1)
  }

  /**
   * The catch-all route's decision. `staticMode` is whether FLY_APP_NAME is set;
   * `session` is the decrypted `oauth_token` cookie.
   */
  function Gate(url: string, staticMode: bool, session: Option<string>, collections: seq<Collection>): (e: Effect)
    ensures url == "/" ==> e == RedirectedTo(FirstPage)
    ensures url != "/" && staticMode ==>
              e == (if Truthy(session) then Downloaded("dist" + url + ".html") else RedirectedTo(LoginPage))
    ensures staticMode && !Truthy(session) ==> e.RedirectedTo?
    ensures e.EntryRendered? ==>
              && url != "/" && !staticMode && e.collection < |collections|
              && FindByPermalink(collections[e.collection], url) == Some(e.entry)
              && forall c :: 0 <= c < e.collection ==> FindByPermalink(collections[c], url).None?
    ensures url != "/" && !staticMode && (exists c :: 0 <= c < |collections| && FindByPermalink(collections[c], url).Some?) ==>
              e.EntryRendered?
    ensures e.NotFoundSent? <==>
              url != "/" && !staticMode && forall c :: 0 <= c < |collections| ==> FindByPermalink(collections[c], url).None?
    ensures e.NotFoundSent? ==> e.message == "Page not found"
  {
    if url == "/" then RedirectedTo(FirstPage)
    else if staticMode then
      if !Truthy(session) then RedirectedTo(LoginPage) else Downloaded(StaticPath(url))
    else
      match FirstCollectionWith(collections, url, 0)
      case Some(c) => EntryRendered(c, FindByPermalink(collections[c], url).value)
      case None => NotFoundSent(PageNotFoundMessage)
  }

  /** GET *: the root redirect, the static-mode gate, then the search over the collections. */
  method CatchAll(url: string, staticMode: bool, session: Option<string>, collections: seq<Collection>, response: Response)
    modifies response
    ensures response.effects == old(response.effects) + [Gate(url, staticMode, session, collections)]
  {
    if url == "/" {
      response.Redirect(FirstPage);
      return;
    }
    if staticMode {
      if !Truthy(session) {
        response.Redirect(LoginPage);
        return;
      }
      response.Send(Downloaded(StaticPath(url)));
      return;
    }
    for c := 0 to |collections|
      invariant forall k :: 0 <= k < c ==> FindByPermalink(collections[k], url).None?
    {
      var entry := FindByPermalink(collections[c], url);
      if entry.Some? {
        response.Send(EntryRendered(c, entry.value));
        return;
      }
    }
    response.Send(NotFoundSent(PageNotFoundMessage));
  }

  /** In static mode no documentation is sent without a session, whatever the path. */
  lemma NoContentWithoutSession(url: string, session: Option<string>, collections: seq<Collection>)
    requires !Truthy(session)
    ensures Gate(url, true, session, collections) == RedirectedTo(if url == "/" then FirstPage else LoginPage)
  {
  }

  /** In static mode the collections are never searched: the decision is the same for any collections. */
  lemma StaticModeIgnoresCollections(url: string, session: Option<string>, c1: seq<Collection>, c2: seq<Collection>)
    ensures Gate(url, true, session, c1) == Gate(url, true, session, c2)
    ensures !Gate(url, true, session, c1).EntryRendered?
  {
  }

  /** The effects of GET /authenticate for the flash message read from the request. */
  function ShowLoginEffects(flash: Option<Flash>): seq<Effect>
  {
    [CookieCleared(FlashCookie), ViewRendered(LoginView, flash)]
  }

  /** GET /authenticate: read the flash message, clear it and render the login view with it. */
  method ShowLogin(flash: Option<Flash>, response: Response)
    modifies response
    ensures response.effects == old(response.effects) + ShowLoginEffects(flash)
  {
    response.ClearCookie(FlashCookie);
    response.Send(ViewRendered(LoginView, flash));
  }

  /** The effects of POST /authenticate, given whether ally's redirect to GitHub succeeds. */
  function StartLoginEffects(redirectSucceeds: bool): (es: seq<Effect>)
    ensures CountRedirects(es) == 1
    ensures !redirectSucceeds ==> CountCookieWrites(es) == 1 && es[|es| - 1] == RedirectedTo(LoginPage)
    ensures redirectSucceeds ==> es == [ProviderRedirect] && CountCookieWrites(es) == 0
    ensures !redirectSucceeds ==>
              es == [CookieSet("flash_messages", Flash("Unable to redirect to Github")), RedirectedTo("/authenticate")]
  {
    if redirectSucceeds then [ProviderRedirect]
    else
      CountPair(CookieSet(FlashCookie, Flash(RedirectFailedMessage)), RedirectedTo(LoginPage));
      [CookieSet(FlashCookie, Flash(RedirectFailedMessage)), RedirectedTo(LoginPage)]
  }

  /** POST /authenticate: redirect to GitHub; on failure, flash a message and go back to the login page. */
  method StartLogin(redirectSucceeds: bool, response: Response)
    modifies response
    ensures response.effects == old(response.effects) + StartLoginEffects(redirectSucceeds)
  {
    if redirectSucceeds {
      response.Send(ProviderRedirect);
    } else {
      response.Cookie(FlashCookie, Flash(RedirectFailedMessage));
      response.Redirect(LoginPage);
    }
  }

  /** A cookie as the browser keeps it between requests. */
  datatype Stored = FlashValue(flash: Flash) | SessionValue(value: Option<string>)

  /** The browser's cookies after it receives the given effects, in order. */
  function Store(jar: map<string, Stored>, es: seq<Effect>): map<string, Stored>
    decreases |es|
  {
    if es == [] then jar
    else
      var next := match es[0]
        case CookieSet(name, flash) => jar[name := FlashValue(flash)]
        case EncryptedCookieSet(name, value, _, _) => jar[name := SessionValue(value)]
        case CookieCleared(name) => jar - {name}
        case _ => jar;
      Store(next, es[1..])
  }

  /** The flash message a request carries. */
  function FlashIn(jar: map<string, Stored>): Option<Flash>
  {
    if FlashCookie in jar && jar[FlashCookie].FlashValue? then Some(jar[FlashCookie].flash) else None
  }

  /** The decrypted session cookie a request carries. */
  function SessionIn(jar: map<string, Stored>): Option<string>
  {
    if SessionCookie in jar && jar[SessionCookie].SessionValue? then jar[SessionCookie].value else None
  }

  /**
   * A rejected login's message is shown by the next login page exactly once: the
   * page renders it and clears it, and the session the browser had is left as it was.
   */
  lemma RejectionFlashShownOnce(allowList: seq<string>, gh: GithubCallback, sponsorship: QueryOutcome, jar: map<string, Stored>)
    requires Callback(allowList, gh, sponsorship).Rejected?
    ensures var after := Store(jar, CallbackEffects(Callback(allowList, gh, sponsorship)));
            && FlashIn(after) == Some(Flash(Message(Callback(allowList, gh, sponsorship).reason)))
            && SessionIn(after) == SessionIn(jar)
            && ShowLoginEffects(FlashIn(after))[1] == ViewRendered(LoginView, Some(Flash(Message(Callback(allowList, gh, sponsorship).reason))))
            && FlashIn(Store(after, ShowLoginEffects(FlashIn(after)))) == None
  {
    var o := Callback(allowList, gh, sponsorship);
    assert o == Rejected(o.reason);
    FlashShownOnce(Flash(Message(o.reason)), jar);
  }

  /** A flash message followed by the redirect to the login page is shown there once, and the session is kept. */
  lemma FlashShownOnce(flash: Flash, jar: map<string, Stored>)
    ensures var after := Store(jar, [CookieSet(FlashCookie, flash), RedirectedTo(LoginPage)]);
            && FlashIn(after) == Some(flash)
            && SessionIn(after) == SessionIn(jar)
            && ShowLoginEffects(FlashIn(after))[1] == ViewRendered(LoginView, Some(flash))
            && FlashIn(Store(after, ShowLoginEffects(FlashIn(after)))) == None
  {
    var es := [CookieSet(FlashCookie, flash), RedirectedTo(LoginPage)];
    var flashed := jar[FlashCookie := FlashValue(flash)];
    assert Store(flashed, es[1..][1..]) == flashed;
    assert es[1..][0] == RedirectedTo(LoginPage);
    assert Store(flashed, es[1..]) == flashed;
    var after := Store(jar, es);
    assert after == flashed;
    var shown := ShowLoginEffects(FlashIn(after));
    var cleared := after - {FlashCookie};
    assert Store(cleared, shown[1..][1..]) == cleared;
    assert shown[1..][0] == ViewRendered(LoginView, FlashIn(after));
    assert Store(cleared, shown[1..]) == cleared;
    assert Store(after, shown) == cleared;
  }

  /**
   * After signing in, the statically hosted pages open exactly when the username
   * was read: a session written for a missing username is turned back to the login page.
   */
  lemma SignedInSessionAtTheGate(allowList: seq<string>, gh: GithubCallback, sponsorship: QueryOutcome, jar: map<string, Stored>,
                                 url: string, collections: seq<Collection>)
    requires Callback(allowList, gh, sponsorship).SignedIn?
    requires url != "/"
    ensures var after := Store(jar, CallbackEffects(Callback(allowList, gh, sponsorship)));
            Gate(url, true, SessionIn(after), collections)
              == if Truthy(gh.login) then Downloaded(StaticPath(url)) else RedirectedTo(LoginPage)
  {
    assert Callback(allowList, gh, sponsorship) == SignedIn(gh.login);
    SessionAtTheGate(gh.login, jar, url, collections);
  }

  /** The session a sign-in leaves in the browser opens the static pages exactly when it holds a username. */
  lemma SessionAtTheGate(login: Option<string>, jar: map<string, Stored>, url: string, collections: seq<Collection>)
    requires url != "/"
    ensures var after := Store(jar, CallbackEffects(SignedIn(login)));
            Gate(url, true, SessionIn(after), collections)
              == if Truthy(login) then Downloaded(StaticPath(url)) else RedirectedTo(LoginPage)
  {
    var es := CallbackEffects(SignedIn(login));
    var signed := jar[SessionCookie := SessionValue(login)];
    assert Store(signed, es[1..][1..]) == signed;
    assert es[1..][0] == RedirectedTo(FirstPage);
    assert Store(signed, es[1..]) == signed;
    assert Store(jar, es) == signed;
  }
}
