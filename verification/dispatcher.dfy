/** The per-item loop of `execute` and the two load-options callbacks.
    Each input item carries its parameters, the login call's result and the
    data call's outcome; the loop authenticates, plans the request,
    normalises the response, recovers from a 401 and wraps the result, and
    the whole batch is a fold over the items that stops at the first error. */
module Dispatcher {
  import opened Wrappers
  import opened Strings
  import opened JsValues
  import opened Session
  import opened Cookies
  import opened ODataUrl
  import Metadata
  import opened RequestBody

  /** The `operation` parameter. */
  datatype Operation = GET | METADATA | TABLES | POST | PATCH | DELETE

  function OperationName(op: Operation): string
  {
    match op
    case GET => "GET"
    case METADATA => "METADATA"
    case TABLES => "TABLES"
    case POST => "POST"
    case PATCH => "PATCH"
    case DELETE => "DELETE"
  }

  /** The node parameters of one item. */
  datatype Params = Params(
    operation: Operation,
    subpath: string,
    select: SelectParam,
    top: int,
    filter: string,
    expand: string,
    id: string,
    useBody: bool,
    body: Value,
    fields: Option<seq<FieldPair>>,
    appendRequest: bool)

  /** One input item: its parameters, what the login call returned and what
      the data call returned. */
  datatype Item = Item(params: Params, login: LoginResponse, outcome: Outcome)

  /** The METADATA scan reads `subpath` as a literal regular expression. */
  predicate ItemOk(p: Params)
  {
    p.operation == METADATA ==> Metadata.Literal(p.subpath)
  }

  predicate Reads(op: Operation)
  {
    op == GET || op == METADATA || op == TABLES
  }

  /** The operations whose output append-request wraps. */
  predicate Echoed(op: Operation)
  {
    op == GET || op == POST || op == PATCH
  }

  // ---------------------------------------------------------------------
  // Requests.
  // ---------------------------------------------------------------------

  /** Headers of GET, METADATA and TABLES: the read cookie header and the
      uncut CSRF token, left out when undefined. */
  function ReadHeaders(ctx: SessionContext, accept: string, json: bool): (h: map<string, string>)
    requires ';' !in ctx.userType
    ensures "Accept" in h && "Cookie" in h
    ensures h["Accept"] == accept && h["Cookie"] == ReadCookieHeader(ctx)
    ensures "Content-Type" in h <==> json
    ensures "BPMCSRF" in h <==> ReadCsrfToken(ctx).Some?
    ensures "BPMCSRF" in h ==> h["BPMCSRF"] == ReadCsrfToken(ctx).value
  {
    var common := map["Accept" := accept, "Cookie" := ReadCookieHeader(ctx)];
    var typed := if json then common["Content-Type" := "application/json"] else common;
    match ReadCsrfToken(ctx)
    case None => typed
    case Some(t) => typed["BPMCSRF" := t]
  }

  /** Headers of POST, PATCH and DELETE: the write cookie header and the cut
      CSRF token, always sent. */
  function WriteHeaders(ctx: SessionContext): (h: map<string, string>)
    requires ';' !in ctx.userType
    ensures "Cookie" in h && "BPMCSRF" in h
    ensures h["Cookie"] == WriteCookieHeader(ctx) && h["BPMCSRF"] == WriteCsrfToken(ctx)
    ensures '=' !in h["BPMCSRF"] && ';' !in h["BPMCSRF"]
  {
    map["Accept" := "*/*", "Content-Type" := "application/json",
        "Cookie" := WriteCookieHeader(ctx), "BPMCSRF" := WriteCsrfToken(ctx)]
  }

  /** The data request of one item. */
  function PlanRequest(ctx: SessionContext, p: Params): (r: Request)
    requires ';' !in ctx.userType
    ensures Reads(p.operation) <==> r.verb == Get
    ensures r.verb == Post <==> p.operation == POST
    ensures r.verb == Patch <==> p.operation == PATCH
    ensures r.verb == Delete <==> p.operation == DELETE
    ensures CollectionUrl(ctx.creatioUrl, "") <= r.url
    ensures "Cookie" in r.headers
    ensures Reads(p.operation) ==> r.headers["Cookie"] == ReadCookieHeader(ctx) && r.body.None?
    ensures !Reads(p.operation) ==> r.headers["Cookie"] == WriteCookieHeader(ctx)
    ensures p.operation == GET ==>
      r.url == GetUrl(ctx.creatioUrl, p.subpath, SelectFields(p.select), p.top, p.filter, p.expand)
    ensures p.operation == METADATA ==> r.url == CollectionUrl(ctx.creatioUrl, "$metadata")
    ensures p.operation == TABLES ==> r.url == CollectionUrl(ctx.creatioUrl, "")
    ensures p.operation == POST ==>
      r.url == CollectionUrl(ctx.creatioUrl, p.subpath) && r.body == Some(Body(p.useBody, p.body, p.fields, false))
    ensures p.operation == PATCH ==>
      r.url == EntityUrl(ctx.creatioUrl, p.subpath, p.id) && r.body == Some(Body(p.useBody, p.body, p.fields, true))
    ensures p.operation == DELETE ==> r.url == EntityUrl(ctx.creatioUrl, p.subpath, p.id) && r.body.None?
  {
    var base := ctx.creatioUrl;
    RootPrefix(base, p.subpath);
    RootPrefix(base, "$metadata");
    match p.operation
    case GET =>
      Request(Get, GetUrl(base, p.subpath, SelectFields(p.select), p.top, p.filter, p.expand),
              ReadHeaders(ctx, "application/json", true), None)
    case METADATA =>
      Request(Get, CollectionUrl(base, "$metadata"), ReadHeaders(ctx, "application/xml", false), None)
    case TABLES =>
      Request(Get, CollectionUrl(base, ""), ReadHeaders(ctx, "application/json", true), None)
    case POST =>
      Request(Post, CollectionUrl(base, p.subpath), WriteHeaders(ctx), Some(Body(p.useBody, p.body, p.fields, false)))
    case PATCH =>
      Request(Patch, EntityUrl(base, p.subpath, p.id), WriteHeaders(ctx), Some(Body(p.useBody, p.body, p.fields, true)))
    case DELETE =>
      Request(Delete, EntityUrl(base, p.subpath, p.id), WriteHeaders(ctx), None)
  }

  /** Every collection URL lies under the OData root. */
  lemma RootPrefix(base: string, subpath: string)
    ensures CollectionUrl(base, "") <= CollectionUrl(base, subpath)
  {
    assert CollectionUrl(base, "") == base + ODataPath;
  }

  // ---------------------------------------------------------------------
  // Result normalisation.
  // ---------------------------------------------------------------------

  /** `{tableName: item.name}` for every element; reading `name` of `null`
      or `undefined` throws. */
  function TableEntries(items: seq<Value>): (r: Result<seq<Value>, Error>)
    ensures r.Success? <==> forall i :: 0 <= i < |items| ==> !items[i].Undefined? && !items[i].Null?
    ensures r.Failure? ==> r.error.TypeError?
    ensures r.Success? ==> |r.value| == |items|
    ensures r.Success? ==> forall i :: 0 <= i < |items| ==>
      r.value[i] == Obj(map["tableName" := Property(items[i], "name").value])
  {
    if |items| == 0 then Success([])
    else
      var name :- Property(items[0], "name");
      var rest :- TableEntries(items[1..]);
      assert forall i :: 1 <= i < |items| ==> items[i] == items[1..][i - 1];
      Success([Obj(map["tableName" := name])] + rest)
  }

  /** GET: with `value` truthy, the value itself, or for an empty subpath
      its elements as `{tableName}`; otherwise the response unchanged. */
  function NormalizeGet(subpath: string, response: Value): (r: Result<Value, Error>)
    ensures response.Undefined? || response.Null? ==> r.Failure?
    ensures r.Failure? ==> r.error.TypeError?
    ensures !response.Undefined? && !response.Null? && !Truthy(Property(response, "value").value)
            ==> r == Success(response)
    ensures subpath != "" && response.Obj? && "value" in response.fields && Truthy(response.fields["value"])
            ==> r == Success(response.fields["value"])
    ensures subpath == "" && response.Obj? && "value" in response.fields && response.fields["value"].Arr?
            ==> r == (match TableEntries(response.fields["value"].items)
                      case Success(es) => Success(Arr(es))
                      case Failure(e) => Failure(e))
  {
    var value :- Property(response, "value");
    if subpath == "" && Truthy(value) then
      match value
      case Arr(items) =>
        var entries :- TableEntries(items);
        Success(Arr(entries))
      case _ => Failure(TypeError("response.value.map is not a function"))
    else if Truthy(value) then Success(value)
    else Success(response)
  }

  const HiddenPrefixes: seq<string> := ["vw", "sys", "oauth", "web"]

  /** A lower-cased table name that TABLES hides. */
  predicate Hidden(lower: string)
  {
    exists i :: 0 <= i < |HiddenPrefixes| && HiddenPrefixes[i] <= lower
  }

  /** `item.name.toLowerCase()`: throws unless the name is a string. */
  function LowerName(item: Value): (r: Result<string, Error>)
    ensures r.Success? <==> !item.Undefined? && !item.Null? && Property(item, "name").value.Str?
    ensures r.Success? ==> r.value == LowerAscii(Property(item, "name").value.s)
    ensures r.Failure? ==> r.error.TypeError?
  {
    var name :- Property(item, "name");
    match name
    case Str(s) => Success(LowerAscii(s))
    case Undefined => Failure(TypeError("Cannot read properties of undefined (reading 'toLowerCase')"))
    case Null => Failure(TypeError("Cannot read properties of null (reading 'toLowerCase')"))
    case _ => Failure(TypeError("item.name.toLowerCase is not a function"))
  }

  /** The names TABLES keeps, in order: those whose lower-cased form starts
      with none of the hidden prefixes. */
  function VisibleNames(items: seq<Value>): (r: Result<seq<string>, Error>)
    ensures r.Success? <==> forall i :: 0 <= i < |items| ==> LowerName(items[i]).Success?
    ensures r.Failure? ==> r.error.TypeError?
    ensures r.Success? ==> |r.value| <= |items|
    ensures r.Success? ==> forall j :: 0 <= j < |r.value| ==> !Hidden(LowerAscii(r.value[j]))
  {
    if |items| == 0 then Success([])
    else
      var lower :- LowerName(items[0]);
      var rest :- VisibleNames(items[1..]);
      assert forall i :: 1 <= i < |items| ==> items[i] == items[1..][i - 1];
      if Hidden(lower) then Success(rest)
      else Success([Property(items[0], "name").value.s] + rest)
  }

  /** `item` is a table TABLES keeps, named `n`. */
  predicate Shown(item: Value, n: string)
  {
    !item.Undefined? && !item.Null? && Property(item, "name").value == Str(n) && !Hidden(LowerAscii(n))
  }

  /** TABLES keeps exactly the tables whose lower-cased name starts with no
      hidden prefix. */
  lemma {:induction false} VisibleNamesMembers(items: seq<Value>, n: string)
    requires VisibleNames(items).Success?
    ensures n in VisibleNames(items).value <==> exists i :: 0 <= i < |items| && Shown(items[i], n)
    decreases |items|
  {
    if |items| > 0 {
      var tail := items[1..];
      VisibleNamesMembers(tail, n);
      if exists i :: 0 <= i < |items| && Shown(items[i], n) {
        var i :| 0 <= i < |items| && Shown(items[i], n);
        if i > 0 {
          assert tail[i - 1] == items[i];
        }
      }
      if exists j :: 0 <= j < |tail| && Shown(tail[j], n) {
        var j :| 0 <= j < |tail| && Shown(tail[j], n);
        assert items[j + 1] == tail[j];
      }
    }
  }

  /** The filter keeps the input order: the names kept from `a + b` are
      those kept from `a` followed by those kept from `b`. */
  lemma {:induction false} VisibleNamesAppend(a: seq<Value>, b: seq<Value>)
    ensures VisibleNames(a + b)
            == (match VisibleNames(a)
                case Failure(e) => Failure(e)
                case Success(x) =>
                  match VisibleNames(b)
                  case Failure(e) => Failure(e)
                  case Success(y) => Success(x + y))
    decreases |a|
  {
    if |a| == 0 {
      assert a + b == b;
      if VisibleNames(b).Success? {
        assert [] + VisibleNames(b).value == VisibleNames(b).value;
      }
    } else {
      assert (a + b)[0] == a[0];
      assert (a + b)[1..] == a[1..] + b;
      VisibleNamesAppend(a[1..], b);
      match LowerName(a[0])
      case Failure(_) =>
      case Success(lower) =>
        match VisibleNames(a[1..])
        case Failure(_) =>
        case Success(x) =>
          match VisibleNames(b)
          case Failure(_) =>
          case Success(y) =>
            var name := Property(a[0], "name").value.s;
            assert [name] + x + y == [name] + (x + y);
    }
  }

  /** `{tableName}` for every name. */
  function TableRows(names: seq<string>): (r: seq<Value>)
    ensures |r| == |names|
    ensures forall j :: 0 <= j < |r| ==> r[j] == Obj(map["tableName" := Str(names[j])])
  {
    seq(|names|, j requires 0 <= j < |names| => Obj(map["tableName" := Str(names[j])]))
  }

  /** TABLES: the visible entries of `value`, as `{tableName}`. */
  function NormalizeTables(response: Value): (r: Result<Value, Error>)
    ensures r.Failure? ==> r.error.TypeError?
    ensures r.Success? ==> r.value.Arr?
    ensures r.Success? ==> response.Obj? && "value" in response.fields && response.fields["value"].Arr?
    ensures r.Success? ==> var names := VisibleNames(response.fields["value"].items);
      names.Success? && |r.value.items| == |names.value|
      && forall j :: 0 <= j < |names.value| ==> r.value.items[j] == Obj(map["tableName" := Str(names.value[j])])
  {
    var value :- Property(response, "value");
    match value
    case Arr(items) =>
      var names :- VisibleNames(items);
      Success(Arr(TableRows(names)))
    case Undefined => Failure(TypeError("Cannot read properties of undefined (reading 'filter')"))
    case Null => Failure(TypeError("Cannot read properties of null (reading 'filter')"))
    case _ => Failure(TypeError("response.value.filter is not a function"))
  }

  /** The text of a response read without JSON parsing. */
  function Text(v: Value): string
  {
    if v.Str? then v.s else ""
  }

  /** METADATA: `{fieldName}` for every property of the entity type. */
  function FieldEntries(fields: seq<string>): (r: seq<Value>)
    ensures |r| == |fields|
    ensures forall i :: 0 <= i < |r| ==> r[i] == Obj(map["fieldName" := Str(fields[i])])
  {
    seq(|fields|, i requires 0 <= i < |fields| => Obj(map["fieldName" := Str(fields[i])]))
  }

  /** The response of one item after its operation's normalisation. */
  function Normalize(p: Params, response: Value): (r: Result<Value, Error>)
    requires ItemOk(p)
    ensures p.operation == POST || p.operation == PATCH ==> r == Success(response)
    ensures p.operation == DELETE && response == Str("") ==> r == Success(Obj(map["deleted" := Bool(true)]))
    ensures p.operation == DELETE && response != Str("") ==> r == Success(response)
    ensures p.operation == METADATA ==>
      (r.Failure? <==> Metadata.Isolate(Text(response), p.subpath).None?)
    ensures r.Failure? ==> !IsUnauthorized(r.error)
  {
    match p.operation
    case GET => NormalizeGet(p.subpath, response)
    case METADATA =>
      var fields :- Metadata.MetadataFields(Text(response), p.subpath);
      Success(Arr(FieldEntries(fields)))
    case TABLES => NormalizeTables(response)
    case POST => Success(response)
    case PATCH => Success(response)
    case DELETE =>
      if response == Str("") then Success(Obj(map["deleted" := Bool(true)])) else Success(response)
  }

  /** The `try`/`catch` around the data call: a 401 becomes `[]`, any other
      error escapes. */
  function Respond(p: Params, outcome: Outcome): (r: Result<Value, Error>)
    requires ItemOk(p)
    ensures outcome.Rejected? ==>
      r == (if outcome.statusCode == Some(401) then Success(Arr([]))
            else Failure(HttpError(outcome.statusCode, outcome.message)))
    ensures outcome.Responded? ==> r == Normalize(p, outcome.body)
  {
    match outcome
    case Rejected(code, msg) =>
      var e := HttpError(code, msg);
      if IsUnauthorized(e) then Success(Arr([])) else Failure(e)
    case Responded(v) =>
      match Normalize(p, v)
      case Success(x) => Success(x)
      case Failure(e) => if IsUnauthorized(e) then Success(Arr([])) else Failure(e)
  }

  /** The `select` parameter as the node read it. */
  function SelectValue(s: SelectParam): Value
  {
    match s
    case SelectList(fs) => Arr(seq(|fs|, i requires 0 <= i < |fs| => Str(fs[i])))
    case SelectText(t) => Str(t)
  }

  /** The request fields append-request records. */
  function RequestFields(p: Params): (m: map<string, Value>)
    ensures m.Keys == {"operation", "subpath"}
                      + (if p.operation == GET then {"select", "top", "filter", "expand"} else {})
                      + (if p.operation == PATCH then {"id"} else {})
                      + (if p.operation == POST || p.operation == PATCH then {"body"} else {})
    ensures m["operation"] == Str(OperationName(p.operation)) && m["subpath"] == Str(p.subpath)
    ensures p.operation == POST || p.operation == PATCH ==> m["body"] == p.body
    ensures p.operation == GET ==>
      m["select"] == SelectValue(p.select) && m["top"] == Num(p.top)
      && m["filter"] == Str(p.filter) && m["expand"] == Str(p.expand)
    ensures p.operation == PATCH ==> m["id"] == Str(p.id)
  {
    var common := map["operation" := Str(OperationName(p.operation)), "subpath" := Str(p.subpath)];
    var read := if p.operation == GET
                then common + map["select" := SelectValue(p.select), "top" := Num(p.top),
                                  "filter" := Str(p.filter), "expand" := Str(p.expand)]
                else common;
    var keyed := if p.operation == PATCH then read["id" := Str(p.id)] else read;
    if p.operation == POST || p.operation == PATCH then keyed["body" := p.body] else keyed
  }

  /** The output of one item: wrapped with its request fields only for
      GET, POST and PATCH with append-request set. */
  function Record(p: Params, response: Value): (r: Value)
    ensures !(p.appendRequest && Echoed(p.operation)) ==> r == response
    ensures p.appendRequest && Echoed(p.operation) ==>
      r.Obj? && r.fields.Keys == RequestFields(p).Keys + {"response"} && r.fields["response"] == response
    ensures p.appendRequest && Echoed(p.operation) ==>
      forall k :: k in RequestFields(p) ==> r.fields[k] == RequestFields(p)[k]
  {
    if p.appendRequest && Echoed(p.operation) then Obj(RequestFields(p)["response" := response])
    else response
  }

  // ---------------------------------------------------------------------
  // The loop.
  // ---------------------------------------------------------------------

  /** One iteration: authenticate (outside the `try`, so a failed login
      always aborts), then the data call and its normalisation. */
  function Step(creds: Credentials, item: Item): (r: Result<Value, Error>)
    requires ItemOk(item.params)
    ensures item.login.LoginFailed? ==> r == Failure(Authenticate(creds, item.login).error)
    ensures item.login.LoggedIn? ==>
      r == (match Respond(item.params, item.outcome)
            case Success(v) => Success(Record(item.params, v))
            case Failure(e) => Failure(e))
  {
    match Authenticate(creds, item.login)
    case Failure(e) => Failure(e)
    case Success(_) =>
      var response :- Respond(item.params, item.outcome);
      Success(Record(item.params, response))
  }

  /** The request one item issues, once its login succeeded. */
  function Plan(creds: Credentials, item: Item): (r: Option<Request>)
    ensures r.Some? <==> item.login.LoggedIn?
    ensures r.Some? ==> NormalizeUrl(creds.creatioUrl) + ODataPath <= r.value.url
  {
    match Authenticate(creds, item.login)
    case Failure(_) => None
    case Success(ctx) =>
      assert ';' !in UserType;
      var req := PlanRequest(ctx, item.params);
      assert CollectionUrl(ctx.creatioUrl, "") <= req.url;
      Some(req)
  }

  predicate ItemsOk(items: seq<Item>)
  {
    forall i :: 0 <= i < |items| ==> ItemOk(items[i].params)
  }

  /** Gathers per-item results the way the loop does: every output in
      order, or the first error, after which nothing else runs. */
  function Collect(rs: seq<Result<Value, Error>>): (r: Result<seq<Value>, Error>)
    ensures r.Success? <==> forall i :: 0 <= i < |rs| ==> rs[i].Success?
    ensures r.Success? ==> |r.value| == |rs|
    ensures r.Success? ==> forall i :: 0 <= i < |rs| ==> rs[i] == Success(r.value[i])
    ensures r.Failure? ==> exists i :: 0 <= i < |rs| && rs[i] == Failure(r.error)
                             && forall j :: 0 <= j < i ==> rs[j].Success?
  {
    if |rs| == 0 then Success([])
    else
      var out :- rs[0];
      assert forall i :: 1 <= i < |rs| ==> rs[i] == rs[1..][i - 1];
      var rest :- Collect(rs[1..]);
      var all := [out] + rest;
      assert forall i :: 1 <= i < |rs| ==> all[i] == rest[i - 1];
      Success(all)
  }

  /** Collecting splits at any point. */
  lemma {:induction false} CollectAppend(a: seq<Result<Value, Error>>, b: seq<Result<Value, Error>>)
    ensures Collect(a + b)
            == (match Collect(a)
                case Failure(e) => Failure(e)
                case Success(xs) =>
                  match Collect(b)
                  case Failure(e) => Failure(e)
                  case Success(ys) => Success(xs + ys))
    decreases |a|
  {
    if |a| == 0 {
      assert a + b == b;
      if Collect(b).Success? {
        assert [] + Collect(b).value == Collect(b).value;
      }
    } else {
      assert (a + b)[0] == a[0];
      assert (a + b)[1..] == a[1..] + b;
      CollectAppend(a[1..], b);
      match a[0]
      case Failure(_) =>
      case Success(out) =>
        match Collect(a[1..])
        case Failure(_) =>
        case Success(xs) =>
          match Collect(b)
          case Failure(_) =>
          case Success(ys) =>
            assert [out] + xs + ys == [out] + (xs + ys);
    }
  }

  /** The result of every item taken on its own, in order. */
  function Outcomes(creds: Credentials, items: seq<Item>): (rs: seq<Result<Value, Error>>)
    requires ItemsOk(items)
    ensures |rs| == |items|
    decreases |items|
  {
    if |items| == 0 then []
    else [Step(creds, items[0])] + Outcomes(creds, items[1..])
  }

  /** Each outcome is the step of the item at the same position. */
  lemma OutcomesAt(creds: Credentials, items: seq<Item>)
    requires ItemsOk(items)
    ensures forall i :: 0 <= i < |items| ==> Outcomes(creds, items)[i] == Step(creds, items[i])
  {
    forall i | 0 <= i < |items| ensures Outcomes(creds, items)[i] == Step(creds, items[i]) {
      OutcomeAt(creds, items, i);
    }
  }

  lemma {:induction false} OutcomeAt(creds: Credentials, items: seq<Item>, i: nat)
    requires ItemsOk(items) && i < |items|
    ensures Outcomes(creds, items)[i] == Step(creds, items[i])
    decreases i
  {
    if i > 0 {
      var rest := items[1..];
      OutcomeAt(creds, rest, i - 1);
      assert Outcomes(creds, items)[i] == Outcomes(creds, rest)[i - 1];
      assert rest[i - 1] == items[i];
    }
  }

  /** The batch: one output per item, in input order, or the error of the
      first item that fails, which ends the batch. */
  function Run(creds: Credentials, items: seq<Item>): (r: Result<seq<Value>, Error>)
    requires ItemsOk(items)
    ensures r.Success? <==> forall i :: 0 <= i < |items| ==> Step(creds, items[i]).Success?
    ensures r.Success? ==> |r.value| == |items|
    ensures r.Success? ==> forall i :: 0 <= i < |items| ==> Step(creds, items[i]) == Success(r.value[i])
    ensures r.Failure? ==> exists i :: 0 <= i < |items| && Step(creds, items[i]) == Failure(r.error)
                             && forall j :: 0 <= j < i ==> Step(creds, items[j]).Success?
  {
    OutcomesAt(creds, items);
    Collect(Outcomes(creds, items))
  }

  /** Outcomes split with the items. */
  lemma {:induction false} OutcomesAppend(creds: Credentials, a: seq<Item>, b: seq<Item>)
    requires ItemsOk(a) && ItemsOk(b)
    ensures ItemsOk(a + b)
    ensures Outcomes(creds, a + b) == Outcomes(creds, a) + Outcomes(creds, b)
    decreases |a|
  {
    ItemsOkAppend(a, b);
    if |a| == 0 {
      assert a + b == b;
    } else {
      assert (a + b)[0] == a[0] && (a + b)[1..] == a[1..] + b;
      OutcomesAppend(creds, a[1..], b);
      var s := Step(creds, a[0]);
      assert Outcomes(creds, a + b) == [s] + (Outcomes(creds, a[1..]) + Outcomes(creds, b));
      assert Outcomes(creds, a) == [s] + Outcomes(creds, a[1..]);
    }
  }

  lemma ItemsOkAppend(a: seq<Item>, b: seq<Item>)
    requires ItemsOk(a) && ItemsOk(b)
    ensures ItemsOk(a + b)
  {
    forall i | 0 <= i < |a + b| ensures ItemOk((a + b)[i].params) {
      if i < |a| {
        assert (a + b)[i] == a[i];
      } else {
        assert (a + b)[i] == b[i - |a|];
      }
    }
  }

  /** A batch splits at any point: the run of `a + b` is the run of `a`
      followed by the run of `b`, unless `a` already failed. */
  lemma RunAppend(creds: Credentials, a: seq<Item>, b: seq<Item>)
    requires ItemsOk(a) && ItemsOk(b)
    ensures ItemsOk(a + b)
    ensures Run(creds, a + b)
            == (match Run(creds, a)
                case Failure(e) => Failure(e)
                case Success(xs) =>
                  match Run(creds, b)
                  case Failure(e) => Failure(e)
                  case Success(ys) => Success(xs + ys))
  {
    OutcomesAppend(creds, a, b);
    CollectAppend(Outcomes(creds, a), Outcomes(creds, b));
  }

  /** Collecting a result followed by more. */
  lemma CollectCons(r: Result<Value, Error>, b: seq<Result<Value, Error>>)
    ensures Collect([r] + b)
            == (match r
                case Failure(e) => Failure(e)
                case Success(v) =>
                  match Collect(b)
                  case Failure(e) => Failure(e)
                  case Success(ys) => Success([v] + ys))
  {
    var c := [r] + b;
    assert c[0] == r && c[1..] == b;
  }

  /** A failing result placed after a run that succeeds is the batch's
      error, whatever follows it. */
  lemma CollectSpliceFailure(a: seq<Result<Value, Error>>, r: Result<Value, Error>, b: seq<Result<Value, Error>>)
    requires Collect(a).Success? && r.Failure?
    ensures Collect(a + [r] + b) == Failure(r.error)
  {
    assert Collect([r] + b) == Failure(r.error) by {
      CollectCons(r, b);
    }
    assert a + [r] + b == a + ([r] + b);
    CollectAppend(a, [r] + b);
  }

  /** A succeeding result between two succeeding runs: the outputs line up
      around it. */
  lemma CollectSpliceSuccess(a: seq<Result<Value, Error>>, r: Result<Value, Error>, b: seq<Result<Value, Error>>)
    requires Collect(a).Success? && r.Success? && Collect(b).Success?
    ensures Collect(a + [r] + b) == Success(Collect(a).value + [r.value] + Collect(b).value)
  {
    var xs, ys := Collect(a).value, Collect(b).value;
    assert Collect([r] + b) == Success([r.value] + ys) by {
      CollectCons(r, b);
    }
    assert a + [r] + b == a + ([r] + b);
    CollectAppend(a, [r] + b);
    assert xs + ([r.value] + ys) == xs + [r.value] + ys;
  }

  /** The per-item results of `a + [x] + b`. */
  lemma OutcomesSplice(creds: Credentials, a: seq<Item>, x: Item, b: seq<Item>)
    requires ItemsOk(a) && ItemOk(x.params) && ItemsOk(b)
    ensures ItemsOk(a + [x] + b)
    ensures Outcomes(creds, a + [x] + b) == Outcomes(creds, a) + [Step(creds, x)] + Outcomes(creds, b)
  {
    var xb := [x] + b;
    assert ItemsOk(xb) by {
      ItemsOkAppend([x], b);
    }
    assert xb[0] == x && xb[1..] == b;
    assert Outcomes(creds, xb) == [Step(creds, x)] + Outcomes(creds, b);
    OutcomesAppend(creds, a, xb);
    assert a + [x] + b == a + xb;
  }

  /** A 401 from the data call does not stop the batch: that item yields an
      empty array (wrapped when append-request asks for it) and the items
      after it still run. */
  lemma UnauthorizedContinues(creds: Credentials, a: seq<Item>, x: Item, b: seq<Item>)
    requires ItemsOk(a) && ItemOk(x.params) && ItemsOk(b)
    requires x.login.LoggedIn? && x.outcome.Rejected? && x.outcome.statusCode == Some(401)
    requires Run(creds, a).Success? && Run(creds, b).Success?
    ensures ItemsOk(a + [x] + b)
    ensures Run(creds, a + [x] + b)
            == Success(Run(creds, a).value + [Record(x.params, Arr([]))] + Run(creds, b).value)
  {
    assert Respond(x.params, x.outcome) == Success(Arr([]));
    assert Step(creds, x) == Success(Record(x.params, Arr([])));
    OutcomesSplice(creds, a, x, b);
    CollectSpliceSuccess(Outcomes(creds, a), Step(creds, x), Outcomes(creds, b));
  }

  /** A failed login ends the batch with the authentication error, whatever
      the item's data call would have returned (a 401 included): the login
      is outside the `try` that forgives 401s. */
  lemma AuthFailureAborts(creds: Credentials, a: seq<Item>, x: Item, b: seq<Item>)
    requires ItemsOk(a) && ItemOk(x.params) && ItemsOk(b)
    requires x.login.LoginFailed?
    requires Run(creds, a).Success?
    ensures ItemsOk(a + [x] + b)
    ensures Run(creds, a + [x] + b)
            == Failure(NodeOperationError("Failed to authenticate with Creatio: " + x.login.message))
  {
    assert Step(creds, x) == Failure(NodeOperationError("Failed to authenticate with Creatio: " + x.login.message));
    OutcomesSplice(creds, a, x, b);
    CollectSpliceFailure(Outcomes(creds, a), Step(creds, x), Outcomes(creds, b));
  }

  /** METADATA against a rendered schema: the property names of the first
      entity type named `subpath`, or the failed-lookup error when there is
      none. */
  lemma MetadataRoundTrip(creds: Credentials, p: Params, cookies: seq<string>, doc: seq<Metadata.Chunk>)
    requires p.operation == METADATA && Metadata.DocOk(doc)
    requires '"' !in p.subpath && Metadata.Literal(p.subpath)
    ensures Step(creds, Item(p, LoggedIn(cookies), Responded(Str(Metadata.Render(doc)))))
            == (match Metadata.FirstEntity(doc, p.subpath)
                case None => Failure(EntityNotFound(p.subpath))
                case Some(en) => Success(Arr(FieldEntries(Metadata.PropertyNames(en.members)))))
  {
    var xml := Metadata.Render(doc);
    var item := Item(p, LoggedIn(cookies), Responded(Str(xml)));
    assert Text(Str(xml)) == xml;
    Metadata.IsolateRoundTrip(doc, p.subpath);
    match Metadata.FirstEntity(doc, p.subpath)
    case None =>
      assert Metadata.MetadataFields(xml, p.subpath) == Failure(EntityNotFound(p.subpath));
      assert Normalize(p, Str(xml)) == Failure(EntityNotFound(p.subpath));
      assert Respond(p, item.outcome) == Failure(EntityNotFound(p.subpath));
    case Some(en) =>
      var i :| 0 <= i < |doc| && doc[i] == Metadata.Type(en);
      assert Metadata.ChunkOk(doc[i]);
      assert p.subpath != "";
      Metadata.EntityFieldsRoundTrip(doc, p.subpath);
      var fields := Metadata.PropertyNames(en.members);
      assert Metadata.MetadataFields(xml, p.subpath) == Success(fields);
      assert Normalize(p, Str(xml)) == Success(Arr(FieldEntries(fields)));
      assert Respond(p, item.outcome) == Success(Arr(FieldEntries(fields)));
      assert Record(p, Arr(FieldEntries(fields))) == Arr(FieldEntries(fields));
  }

  /** The request the repository's GET test expects: `subpath=Contact`,
      `select=[Name, Email]`, `top=10`, nothing else. */
  lemma GetTestRequest(ctx: SessionContext, p: Params)
    requires ctx.creatioUrl == "https://test.creatio.com" && ';' !in ctx.userType
    requires p.operation == GET && p.subpath == "Contact" && p.select == SelectList(["Name", "Email"])
    requires p.top == 10 && p.filter == "" && p.expand == ""
    ensures PlanRequest(ctx, p).verb == Get
    ensures PlanRequest(ctx, p).url
            == "https://test.creatio.com/0/odata/Contact" + "?$select=Name%2CEmail" + "&$top=10"
  {
    GetUrlExample();
  }

  /** The request the repository's PATCH test expects: the empty `Email`
      is filtered out of the body. */
  lemma PatchTestRequest(ctx: SessionContext, p: Params)
    requires ';' !in ctx.userType
    requires p.operation == PATCH && !p.useBody
    requires p.fields == Some([FieldPair("Name", Str("John Doe")), FieldPair("Email", Str(""))])
    ensures PlanRequest(ctx, p).verb == Patch
    ensures PlanRequest(ctx, p).body == Some(Obj(map["Name" := Str("John Doe")]))
  {
    PatchExample();
  }

  // ---------------------------------------------------------------------
  // Load-options callbacks.
  // ---------------------------------------------------------------------

  /** A choice offered in the node's UI. */
  datatype OptionEntry = OptionEntry(name: string, value: string)

  function Entries(names: seq<string>): (r: seq<OptionEntry>)
    ensures |r| == |names|
    ensures forall i :: 0 <= i < |r| ==> r[i] == OptionEntry(names[i], names[i])
  {
    seq(|names|, i requires 0 <= i < |names| => OptionEntry(names[i], names[i]))
  }

  const EntitiesFailure: string := "Failed to load OData entities: "
  const FieldsFailure: string := "Failed to load OData entity fields: "

  /** The `$metadata` request of both callbacks. */
  function MetadataRequest(ctx: SessionContext): (r: Request)
    ensures r.verb == Get && r.url == CollectionUrl(ctx.creatioUrl, "$metadata") && r.body.None?
    ensures "Cookie" in r.headers && "BPMCSRF" in r.headers
    ensures r.headers["Cookie"] == LoadOptionsCookieHeader(ctx)
    ensures r.headers["BPMCSRF"] == LoadOptionsCsrfToken(ctx)
  {
    Request(Get, CollectionUrl(ctx.creatioUrl, "$metadata"),
            map["Accept" := "application/xml", "Cookie" := LoadOptionsCookieHeader(ctx),
                "BPMCSRF" := LoadOptionsCsrfToken(ctx)],
            None)
  }

  /** `getODataEntities`: every entity-type name as a choice; any failure,
      the login's included, is reported under one message prefix. */
  function LoadEntities(creds: Credentials, login: LoginResponse, outcome: Outcome): (r: Result<seq<OptionEntry>, Error>)
    ensures r.Failure? <==> login.LoginFailed? || outcome.Rejected?
    ensures r.Failure? ==> r.error.NodeOperationError? && EntitiesFailure <= r.error.message
    ensures login.LoginFailed? ==>
      r == Failure(NodeOperationError(EntitiesFailure + Message(Authenticate(creds, login).error)))
    ensures r.Success? ==> r.value == Entries(Metadata.EntityNames(Text(outcome.body)))
  {
    match Authenticate(creds, login)
    case Failure(e) => Failure(NodeOperationError(EntitiesFailure + Message(e)))
    case Success(_) =>
      match outcome
      case Rejected(_, msg) => Failure(NodeOperationError(EntitiesFailure + msg))
      case Responded(v) => Success(Entries(Metadata.EntityNames(Text(v))))
  }

  /** `getODataEntityFields`: after logging in, no choices for an empty
      subpath, else the property names of the entity type's block. */
  function LoadEntityFields(creds: Credentials, login: LoginResponse, subpath: string, outcome: Outcome)
    : (r: Result<seq<OptionEntry>, Error>)
    requires Metadata.Literal(subpath)
    ensures r.Failure? <==> login.LoginFailed? || (subpath != "" && outcome.Rejected?)
    ensures r.Failure? ==> r.error.NodeOperationError? && FieldsFailure <= r.error.message
    ensures login.LoggedIn? && subpath == "" ==> r == Success([])
    ensures r.Success? && subpath != "" ==>
      r.value == Entries(Metadata.EntityFields(Text(outcome.body), subpath))
  {
    match Authenticate(creds, login)
    case Failure(e) => Failure(NodeOperationError(FieldsFailure + Message(e)))
    case Success(_) =>
      if subpath == "" then Success([])
      else
        match outcome
        case Rejected(_, msg) => Failure(NodeOperationError(FieldsFailure + msg))
        case Responded(v) => Success(Entries(Metadata.EntityFields(Text(v), subpath)))
  }
}
