/** Cookie and CSRF header derivation. Each call site of the node builds a
    `Cookie` header as `[c1?.split(';')[0], …].filter(Boolean).join('; ')`
    (the `cookie-string` shape of section 4.2.1 of RFC 6265) and a `BPMCSRF`
    header from the second `=`-segment of the CSRF cookie; the three call
    sites differ in which cookies they list and how they cut the token. */
module Cookies {
  import opened Wrappers
  import opened Strings
  import opened Session

  /** `cookie?.split(';')[0]`: the `name=value` part of a `Set-Cookie` line,
      absent when the cookie is. */
  function Fragment(cookie: Option<string>): (r: Option<string>)
    ensures r.Some? <==> cookie.Some?
    ensures r.Some? ==> r.value <= cookie.value && ';' !in r.value
    ensures r.Some? && r.value != cookie.value ==> cookie.value[|r.value|] == ';'
  {
    match cookie
    case None => None
    case Some(c) => Some(BeforeFirst(c, ';'))
  }

  /** `.filter(Boolean)`: the fragments that are present and non-empty. */
  function Present(fragments: seq<Option<string>>): (r: seq<string>)
    ensures forall i :: 0 <= i < |r| ==> r[i] != ""
    ensures |r| <= |fragments|
  {
    if |fragments| == 0 then []
    else
      (if fragments[0].Some? && fragments[0].value != "" then [fragments[0].value] else [])
      + Present(fragments[1..])
  }

  /** A single fragment is kept exactly when it is present and non-empty. */
  lemma PresentOne(f: Option<string>)
    ensures Present([f]) == (if f.Some? && f.value != "" then [f.value] else [])
  {
    assert [f][1..] == [];
  }

  /** `s` is kept exactly when some listed fragment is `s` and `s` is not
      empty. */
  lemma {:induction false} PresentMembers(fragments: seq<Option<string>>, s: string)
    ensures s in Present(fragments) <==> s != "" && exists i :: 0 <= i < |fragments| && fragments[i] == Some(s)
    decreases |fragments|
  {
    if |fragments| > 0 {
      var tail := fragments[1..];
      PresentMembers(tail, s);
      if exists i :: 0 <= i < |fragments| && fragments[i] == Some(s) {
        var i :| 0 <= i < |fragments| && fragments[i] == Some(s);
        if i > 0 {
          assert tail[i - 1] == fragments[i];
        }
      }
      if exists j :: 0 <= j < |tail| && tail[j] == Some(s) {
        var j :| 0 <= j < |tail| && tail[j] == Some(s);
        assert fragments[j + 1] == tail[j];
      }
    }
  }

  /** The header value: the present fragments joined with `"; "`. */
  function CookieHeader(fragments: seq<Option<string>>): string
  {
    Join(Present(fragments), "; ")
  }

  /** Reads a `Cookie` header back into its pairs: split on `;` and drop the
      one space that follows each separator. */
  function ParseCookieHeader(h: string): (r: seq<string>)
    ensures h == "" ==> r == []
    ensures h != "" ==> |r| == |Split(h, ';')| && r[0] == Split(h, ';')[0]
    ensures h != "" ==> forall i :: 1 <= i < |r| ==> r[i] == DropSpace(Split(h, ';')[i])
  {
    if h == "" then []
    else
      var parts := Split(h, ';');
      seq(|parts|, i requires 0 <= i < |parts| => if i == 0 then parts[0] else DropSpace(parts[i]))
  }

  function DropSpace(p: string): string
  {
    if |p| > 0 && p[0] == ' ' then p[1..] else p
  }

  /** The parts as they sit between the `;` separators of a joined header. */
  function Spaced(parts: seq<string>): (r: seq<string>)
    ensures |r| == |parts|
  {
    seq(|parts|, i requires 0 <= i < |parts| => if i == 0 then parts[0] else " " + parts[i])
  }

  lemma JoinLeadingSpace(x: string, ys: seq<string>, sep: string)
    ensures Join([" " + x] + ys, sep) == " " + Join([x] + ys, sep)
  {
    if |ys| > 0 {
      JoinCons(" " + x, ys, sep);
      JoinCons(x, ys, sep);
    }
  }

  lemma {:induction false} JoinSpaced(parts: seq<string>)
    requires |parts| >= 1
    ensures Join(parts, "; ") == Join(Spaced(parts), ";")
    decreases |parts|
  {
    if |parts| > 1 {
      var rest := parts[1..];
      JoinSpaced(rest);
      var sp := Spaced(parts);
      var spr := Spaced(rest);
      assert sp == [parts[0]] + ([" " + rest[0]] + spr[1..]);
      assert spr == [rest[0]] + spr[1..];
      JoinCons(parts[0], rest, "; ");
      JoinCons(parts[0], [" " + rest[0]] + spr[1..], ";");
      JoinLeadingSpace(rest[0], spr[1..], ";");
    }
  }

  /** Parsing a header joined from `;`-free pairs, the first non-empty,
      gives back exactly those pairs. */
  lemma ParseJoined(ps: seq<string>)
    requires |ps| > 0 && ps[0] != ""
    requires forall i :: 0 <= i < |ps| ==> ';' !in ps[i]
    ensures ParseCookieHeader(Join(ps, "; ")) == ps
  {
    var sp := Spaced(ps);
    JoinSpaced(ps);
    forall i | 0 <= i < |sp|
      ensures ';' !in sp[i]
    {
      if i > 0 {
        assert sp[i] == [' '] + ps[i];
      }
    }
    JoinSplit(sp, ';');
    ParseSpaced(Join(ps, "; "), ps);
  }

  /** A header whose `;`-parts are the spaced pairs parses back to the pairs. */
  lemma ParseSpaced(h: string, ps: seq<string>)
    requires |ps| > 0 && ps[0] != ""
    requires Split(h, ';') == Spaced(ps)
    ensures ParseCookieHeader(h) == ps
  {
    var sp := Spaced(ps);
    if h == "" {
      assert false;
    }
    var parsed := ParseCookieHeader(h);
    assert parsed[0] == ps[0];
    forall i | 1 <= i < |ps|
      ensures parsed[i] == ps[i]
    {
      assert sp[i] == " " + ps[i];
      assert DropSpace(" " + ps[i]) == ps[i];
    }
  }

  /** Parsing a header built from `;`-free fragments gives back exactly the
      present fragments, in the order they were listed. */
  lemma CookieHeaderRoundTrip(fragments: seq<Option<string>>)
    requires forall i :: 0 <= i < |fragments| && fragments[i].Some? ==> ';' !in fragments[i].value
    ensures ParseCookieHeader(CookieHeader(fragments)) == Present(fragments)
  {
    var ps := Present(fragments);
    PresentFree(fragments);
    if |ps| > 0 {
      ParseJoined(ps);
    }
  }

  /** The present fragments of `;`-free fragments are `;`-free. */
  lemma {:induction false} PresentFree(fragments: seq<Option<string>>)
    requires forall i :: 0 <= i < |fragments| && fragments[i].Some? ==> ';' !in fragments[i].value
    ensures forall i :: 0 <= i < |Present(fragments)| ==> ';' !in Present(fragments)[i]
    decreases |fragments|
  {
    if |fragments| > 0 {
      PresentFree(fragments[1..]);
    }
  }

  /** The fragments of the load-options calls (`getODataEntities`,
      `getODataEntityFields`): auth, csrf. */
  function LoadOptionsFragments(ctx: SessionContext): seq<Option<string>>
  {
    [Fragment(ctx.authCookie), Fragment(ctx.csrfCookie)]
  }

  /** The fragments of GET, METADATA and TABLES: auth, csrf, loader, user type. */
  function ReadFragments(ctx: SessionContext): seq<Option<string>>
  {
    [Fragment(ctx.authCookie), Fragment(ctx.csrfCookie), Fragment(ctx.bpmLoader), Some(ctx.userType)]
  }

  /** The fragments of POST, PATCH and DELETE: session, auth, csrf, loader,
      user type. */
  function WriteFragments(ctx: SessionContext): seq<Option<string>>
  {
    [Fragment(ctx.sessionIdCookie), Fragment(ctx.authCookie), Fragment(ctx.csrfCookie),
     Fragment(ctx.bpmLoader), Some(ctx.userType)]
  }

  /** The load-options `Cookie` header lists the auth and csrf pairs that
      are present, in that order, and nothing else. */
  function LoadOptionsCookieHeader(ctx: SessionContext): (h: string)
    ensures ParseCookieHeader(h)
            == Present([Fragment(ctx.authCookie), Fragment(ctx.csrfCookie)])
  {
    CookieHeaderRoundTrip(LoadOptionsFragments(ctx));
    CookieHeader(LoadOptionsFragments(ctx))
  }

  /** The read `Cookie` header lists auth, csrf and loader pairs that are
      present, then the user-type marker; the session cookie never. */
  function ReadCookieHeader(ctx: SessionContext): (h: string)
    requires ';' !in ctx.userType
    ensures ParseCookieHeader(h)
            == Present([Fragment(ctx.authCookie), Fragment(ctx.csrfCookie), Fragment(ctx.bpmLoader)])
               + Present([Some(ctx.userType)])
  {
    var fr := ReadFragments(ctx);
    CookieHeaderRoundTrip(fr);
    assert fr == [Fragment(ctx.authCookie), Fragment(ctx.csrfCookie), Fragment(ctx.bpmLoader)]
                 + [Some(ctx.userType)];
    PresentAppend([Fragment(ctx.authCookie), Fragment(ctx.csrfCookie), Fragment(ctx.bpmLoader)],
                  [Some(ctx.userType)]);
    CookieHeader(fr)
  }

  /** The write `Cookie` header lists session, auth, csrf and loader pairs
      that are present, in that order, then the user-type marker. */
  function WriteCookieHeader(ctx: SessionContext): (h: string)
    requires ';' !in ctx.userType
    ensures ParseCookieHeader(h)
            == Present([Fragment(ctx.sessionIdCookie)])
               + Present([Fragment(ctx.authCookie), Fragment(ctx.csrfCookie), Fragment(ctx.bpmLoader)])
               + Present([Some(ctx.userType)])
  {
    var fr := WriteFragments(ctx);
    CookieHeaderRoundTrip(fr);
    var mid := [Fragment(ctx.authCookie), Fragment(ctx.csrfCookie), Fragment(ctx.bpmLoader)];
    assert fr == [Fragment(ctx.sessionIdCookie)] + mid + [Some(ctx.userType)];
    PresentAppend([Fragment(ctx.sessionIdCookie)] + mid, [Some(ctx.userType)]);
    PresentAppend([Fragment(ctx.sessionIdCookie)], mid);
    CookieHeader(fr)
  }

  lemma {:induction false} PresentAppend(a: seq<Option<string>>, b: seq<Option<string>>)
    ensures Present(a + b) == Present(a) + Present(b)
    decreases |a|
  {
    if |a| > 0 {
      assert (a + b)[1..] == a[1..] + b;
      PresentAppend(a[1..], b);
      var head := if a[0].Some? && a[0].value != "" then [a[0].value] else [];
      assert Present(a + b) == head + Present(a[1..] + b);
      assert Present(a) == head + Present(a[1..]);
    } else {
      assert a + b == b;
    }
  }

  /** The marker is always sent, and last, by read and write operations. */
  lemma UserTypeAlwaysLast(ctx: SessionContext)
    requires ctx.userType == UserType
    ensures var p := ParseCookieHeader(ReadCookieHeader(ctx)); |p| > 0 && p[|p| - 1] == UserType
    ensures var p := ParseCookieHeader(WriteCookieHeader(ctx)); |p| > 0 && p[|p| - 1] == UserType
  {
    assert Present([Some(ctx.userType)]) == [UserType];
  }

  /** `csrfCookie?.split('=')[1] || ''` (load-options calls): the read
      token uncut, or `''` where it is undefined. */
  function LoadOptionsCsrfToken(ctx: SessionContext): (t: string)
    ensures t == ReadCsrfToken(ctx).GetOr("")
    ensures ctx.csrfCookie.None? ==> t == ""
    ensures ctx.csrfCookie.Some? && CsrfPrefix <= ctx.csrfCookie.value ==>
      t == BeforeFirst(ctx.csrfCookie.value[|CsrfPrefix|..], '=')
  {
    match ctx.csrfCookie
    case None => ""
    case Some(c) => SecondSegment(c, '=').GetOr("")
  }

  /** `csrfCookie?.split('=')[1]` (GET, METADATA, TABLES): may be undefined,
      and for a `BPMCSRF=` cookie is everything after the name up to the
      next `=`, attributes included. */
  function ReadCsrfToken(ctx: SessionContext): (t: Option<string>)
    ensures t.Some? <==> ctx.csrfCookie.Some? && '=' in ctx.csrfCookie.value
    ensures t.Some? ==> '=' !in t.value
    ensures ctx.csrfCookie.Some? && CsrfPrefix <= ctx.csrfCookie.value ==>
      t == Some(BeforeFirst(ctx.csrfCookie.value[|CsrfPrefix|..], '='))
  {
    match ctx.csrfCookie
    case None => None
    case Some(c) =>
      CsrfSegment(c);
      SecondSegment(c, '=')
  }

  /** The second `=`-segment of a `BPMCSRF=` cookie line. */
  lemma CsrfSegment(c: string)
    ensures CsrfPrefix <= c ==> SecondSegment(c, '=') == Some(BeforeFirst(c[|CsrfPrefix|..], '='))
  {
    if CsrfPrefix <= c {
      var rest := c[|CsrfPrefix|..];
      assert c == "BPMCSRF" + ['='] + rest;
      SecondSegmentAfterName("BPMCSRF", rest);
    }
  }

  /** `csrfCookie?.split('=')[1]?.split(';')[0] || ''` (POST, PATCH,
      DELETE): never undefined, and free of `=` and `;`. */
  function WriteCsrfToken(ctx: SessionContext): (t: string)
    ensures '=' !in t && ';' !in t
    ensures ctx.csrfCookie.None? ==> t == ""
  {
    match ReadCsrfToken(ctx)
    case None => ""
    case Some(seg) => BeforeFirst(seg, ';')
  }

  /** The write token is the read token cut at its first `;`. */
  lemma CsrfTokenVariants(ctx: SessionContext)
    ensures WriteCsrfToken(ctx) == BeforeFirst(ReadCsrfToken(ctx).GetOr(""), ';')
  {
  }

  /** For the cookie line `BPMCSRF=abc; path=/` the read and load-options
      tokens keep the attribute text up to the next `=`; the write token is
      the value alone. */
  lemma CsrfTokenExample(ctx: SessionContext)
    requires ctx.csrfCookie == Some(CsrfPrefix + "abc; path" + "=/")
    ensures ReadCsrfToken(ctx) == Some("abc; path")
    ensures LoadOptionsCsrfToken(ctx) == "abc; path"
    ensures WriteCsrfToken(ctx) == "abc"
  {
    var c := ctx.csrfCookie.value;
    assert c[|CsrfPrefix|..] == "abc; path" + "=/";
    assert '=' !in "abc; path" && '=' == ("=/")[0];
    BeforeFirstOf("abc; path", '=', "=/");
    assert "abc; path" == "abc" + "; path";
    assert ';' !in "abc" && ';' == ("; path")[0];
    BeforeFirstOf("abc", ';', "; path");
  }

  /** Text free of `d` followed by nothing or by `d` is cut back to itself. */
  lemma BeforeFirstOf(v: string, d: char, rest: string)
    requires d !in v && (rest == "" || rest[0] == d)
    ensures BeforeFirst(v + rest, d) == v
  {
    if rest != "" {
      assert v + rest == v + [d] + rest[1..];
      IndexOfAfter(v, d, rest[1..]);
      assert (v + rest)[..|v|] == v;
    } else {
      assert v + rest == v;
    }
  }

  /** The second `=`-segment of `name=rest` is `rest` up to its own `=`. */
  lemma SecondSegmentAfterName(name: string, rest: string)
    requires '=' !in name
    ensures SecondSegment(name + ['='] + rest, '=') == Some(BeforeFirst(rest, '='))
  {
    var c := name + ['='] + rest;
    IndexOfAfter(name, '=', rest);
    assert c[..|name|] == name && c[|name| + 1..] == rest;
    assert Split(c, '=') == [name] + Split(rest, '=');
  }

  /** For a cookie line `BPMCSRF=<v>; <attributes>` the write token is the
      value `<v>` itself. */
  lemma {:induction false} WriteCsrfTokenIsValue(ctx: SessionContext, v: string, attrs: string)
    requires '=' !in v && ';' !in v
    requires attrs == "" || attrs[0] == ';'
    requires ctx.csrfCookie == Some(CsrfPrefix + v + attrs)
    ensures WriteCsrfToken(ctx) == v
  {
    var c := CsrfPrefix + v + attrs;
    assert c == "BPMCSRF" + ['='] + (v + attrs);
    SecondSegmentAfterName("BPMCSRF", v + attrs);
    var seg := SecondSegment(c, '=').value;
    assert seg == BeforeFirst(v + attrs, '=');
    assert v <= seg;
    var cut := BeforeFirst(seg, ';');
    var tail := seg[|v|..];
    assert seg == v + tail;
    assert tail == "" || tail[0] == ';' by {
      if |tail| > 0 {
        assert (v + attrs)[|v|] == seg[|v|];
      }
    }
    BeforeFirstOf(v, ';', tail);
  }
}
