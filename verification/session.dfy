/** Session context assembly (`authenticateAndGetCookies`): base-URL
    normalisation, the login request, and the first-match selection of the
    four session cookies from the login response's `Set-Cookie` list. */
module Session {
  import opened Wrappers
  import opened Strings
  import opened JsValues

  const AuthPrefix: string := ".ASPXAUTH="
  const CsrfPrefix: string := "BPMCSRF="
  const LoaderPrefix: string := "BPMLOADER="
  const SessionIdPrefix: string := "BPMSESSIONID="
  const UserType: string := "UserType=General"
  const LoginPath: string := "/ServiceModel/AuthService.svc/Login"

  datatype Credentials = Credentials(creatioUrl: string, username: string, password: string)

  /** The login call's result: the `Set-Cookie` list, or the message of the
      error it failed with. */
  datatype LoginResponse = LoggedIn(setCookie: seq<string>) | LoginFailed(message: string)

  datatype SessionContext = SessionContext(
    cookies: seq<string>,
    authCookie: Option<string>,
    csrfCookie: Option<string>,
    bpmLoader: Option<string>,
    sessionIdCookie: Option<string>,
    userType: string,
    creatioUrl: string)

  /** `url.trim().replace(/\/$/, '')`: the trimmed URL less at most one
      trailing slash. */
  function NormalizeUrl(url: string): (r: string)
    ensures var t := Trim(url);
      if |t| > 0 && t[|t| - 1] == '/' then r + "/" == t else r == t
  {
    var t := Trim(url);
    if |t| > 0 && t[|t| - 1] == '/' then t[..|t| - 1] else t
  }

  /** The cookies of `cookies` that start with `prefix`, in order. */
  function WithPrefix(cookies: seq<string>, prefix: string): (r: seq<string>)
    ensures forall c :: c in r ==> prefix <= c && c in cookies
  {
    if |cookies| == 0 then []
    else (if prefix <= cookies[0] then [cookies[0]] else []) + WithPrefix(cookies[1..], prefix)
  }

  /** Index of the first cookie starting with `prefix`. */
  function FirstIndex(cookies: seq<string>, prefix: string): (r: Option<nat>)
    ensures r.Some? ==> r.value < |cookies| && prefix <= cookies[r.value]
    ensures r.Some? ==> forall j :: 0 <= j < r.value ==> !(prefix <= cookies[j])
    ensures r.None? ==> forall j :: 0 <= j < |cookies| ==> !(prefix <= cookies[j])
  {
    if |cookies| == 0 then None
    else if prefix <= cookies[0] then Some(0)
    else
      match FirstIndex(cookies[1..], prefix)
      case None => None
      case Some(i) => Some(i + 1)
  }

  /** `cookies.find(c => c.startsWith(prefix))`. */
  function FindCookie(cookies: seq<string>, prefix: string): (r: Option<string>)
    ensures r.None? <==> forall j :: 0 <= j < |cookies| ==> !(prefix <= cookies[j])
    ensures r.Some? ==> exists i :: 0 <= i < |cookies| && cookies[i] == r.value
                          && prefix <= cookies[i]
                          && forall j :: 0 <= j < i ==> !(prefix <= cookies[j])
  {
    match FirstIndex(cookies, prefix)
    case None => None
    case Some(i) => Some(cookies[i])
  }

  /** The login request: a JSON POST to the normalised URL's login path. */
  function LoginRequest(creds: Credentials): (r: Request)
    ensures r.verb == Post
    ensures r.url == NormalizeUrl(creds.creatioUrl) + LoginPath
    ensures r.body.Some? && r.body.value.Obj?
    ensures r.body.value.fields == map["UserName" := Str(creds.username), "UserPassword" := Str(creds.password)]
  {
    Request(Post, NormalizeUrl(creds.creatioUrl) + LoginPath,
            map["Accept" := "application/json", "Content-Type" := "application/json",
                "ForceUseSession" := "true"],
            Some(Obj(map["UserName" := Str(creds.username), "UserPassword" := Str(creds.password)])))
  }

  /** `authenticateAndGetCookies`: a failed login is reported with the
      underlying message; otherwise each cookie field is the first
      `Set-Cookie` entry with its prefix, or absent. */
  function Authenticate(creds: Credentials, login: LoginResponse): (r: Result<SessionContext, Error>)
    ensures r.Failure? <==> login.LoginFailed?
    ensures login.LoginFailed? ==>
      r.error == NodeOperationError("Failed to authenticate with Creatio: " + login.message)
    ensures r.Success? ==>
      var ctx := r.value;
      && ctx.cookies == login.setCookie
      && ctx.creatioUrl == NormalizeUrl(creds.creatioUrl)
      && ctx.userType == UserType
      && ctx.authCookie == FindCookie(login.setCookie, AuthPrefix)
      && ctx.csrfCookie == FindCookie(login.setCookie, CsrfPrefix)
      && ctx.bpmLoader == FindCookie(login.setCookie, LoaderPrefix)
      && ctx.sessionIdCookie == FindCookie(login.setCookie, SessionIdPrefix)
  {
    match login
    case LoginFailed(msg) => Failure(NodeOperationError("Failed to authenticate with Creatio: " + msg))
    case LoggedIn(cookies) =>
      Success(SessionContext(
        cookies,
        FindCookie(cookies, AuthPrefix),
        FindCookie(cookies, CsrfPrefix),
        FindCookie(cookies, LoaderPrefix),
        FindCookie(cookies, SessionIdPrefix),
        UserType,
        NormalizeUrl(creds.creatioUrl)))
  }

  /** First-match selection is the head of the cookies carrying the prefix:
      a field depends only on the cookies with its own prefix, so the four
      selections are independent of each other. */
  lemma {:induction false} FindIsFirstOfPrefixed(cookies: seq<string>, prefix: string)
    ensures FindCookie(cookies, prefix)
            == (var ps := WithPrefix(cookies, prefix); if |ps| == 0 then None else Some(ps[0]))
    decreases |cookies|
  {
    if |cookies| > 0 && !(prefix <= cookies[0]) {
      FindIsFirstOfPrefixed(cookies[1..], prefix);
      assert WithPrefix(cookies, prefix) == WithPrefix(cookies[1..], prefix);
    }
  }

  /** Adding cookies with other prefixes, anywhere, leaves a field as it is. */
  lemma FindIgnoresOtherCookies(a: seq<string>, b: seq<string>, prefix: string)
    requires WithPrefix(a, prefix) == WithPrefix(b, prefix)
    ensures FindCookie(a, prefix) == FindCookie(b, prefix)
  {
    FindIsFirstOfPrefixed(a, prefix);
    FindIsFirstOfPrefixed(b, prefix);
  }

  /** No cookie line starts with two of the four prefixes, so no entry is
      selected for two fields. */
  lemma PrefixesExclusive(c: string)
    ensures (if AuthPrefix <= c then 1 else 0) + (if CsrfPrefix <= c then 1 else 0)
          + (if LoaderPrefix <= c then 1 else 0) + (if SessionIdPrefix <= c then 1 else 0) <= 1
  {
    if CsrfPrefix <= c {
      assert c[3] == 'C';
    }
    if LoaderPrefix <= c {
      assert c[3] == 'L';
    }
    if SessionIdPrefix <= c {
      assert c[3] == 'S';
    }
  }

  /** Exactly one trailing slash is removed from an already-trimmed URL:
      `t + "/"` normalises to `t` even when `t` itself ends in a slash. */
  lemma NormalizeRemovesOneSlash(t: string)
    requires |t| > 0 && !IsJsWhitespace(t[0])
    ensures NormalizeUrl(t + "/") == t
  {
    var u := t + "/";
    assert !IsJsWhitespace(u[0]) && !IsJsWhitespace(u[|u| - 1]);
    TrimUnchanged(u);
    assert u[..|u| - 1] == t;
  }
}
