/** The three scans over the service's `$metadata` document (an OData CSDL
    XML text): the entity-type names, the block of one entity type, and the
    property names inside that block. Each JavaScript regular expression is
    written out as a scanner over the text that tries every position from
    left to right, as the regular-expression engine does. */
module Metadata {
  import opened Wrappers
  import opened Strings
  import opened JsValues

  const EntityOpen: string := "<EntityType Name=\""
  const EntityClose: string := "</EntityType>"
  const PropertyOpen: string := "<Property Name=\""
  const NavigationOpen: string := "<NavigationProperty Name=\""

  /** One match of `lit([^"]+)"`: the captured text and the length of the
      whole match. */
  datatype Capture = Capture(text: string, end: nat)

  /** The match of `lit([^"]+)"` that starts at the beginning of `s`, if any. */
  function CaptureAt(s: string, lit: string): (r: Option<Capture>)
    ensures r.Some? ==> lit <= s
    ensures r.Some? ==> r.value.text != "" && '"' !in r.value.text
    ensures r.Some? ==> r.value.end == |lit| + |r.value.text| + 1 <= |s|
    ensures r.Some? ==> s[..r.value.end] == lit + r.value.text + "\""
  {
    if lit <= s then
      var rest := s[|lit|..];
      match IndexOf(rest, '"')
      case Some(k) =>
        if k > 0 then
          assert s[..|lit| + k + 1] == lit + rest[..k] + "\"";
          Some(Capture(rest[..k], |lit| + k + 1))
        else None
      case None => None
    else None
  }

  /** Every capture of the global expression `lit([^"]+)"` over `s`, in
      document order: a failed attempt moves on by one character, a match
      moves on past its closing quote. */
  function Scan(s: string, lit: string): (r: seq<string>)
    ensures forall i :: 0 <= i < |r| ==> r[i] != "" && '"' !in r[i]
    decreases |s|
  {
    if |s| == 0 then []
    else
      match CaptureAt(s, lit)
      case Some(c) => [c.text] + Scan(s[c.end..], lit)
      case None => Scan(s[1..], lit)
  }

  /** The entity names the load-options callback offers: every
      `<EntityType Name="…"` capture, duplicates kept. */
  function EntityNames(xml: string): (r: seq<string>)
    ensures forall i :: 0 <= i < |r| ==> r[i] != "" && '"' !in r[i]
  {
    Scan(xml, EntityOpen)
  }

  /** The start of the block of entity type `e`. */
  function OpenTag(e: string): string
  {
    EntityOpen + e + "\""
  }

  /** The text matched by `<EntityType Name="e"[\s\S]*?<\/EntityType>`: at
      the leftmost position where the opening is followed by a closing tag,
      the opening up to the first closing tag after it. What the block looks
      like is `IsolateShape`. */
  function Isolate(xml: string, e: string): (r: Option<string>)
    decreases |xml|
  {
    if |xml| == 0 then None
    else if OpenTag(e) <= xml then
      var after := xml[|OpenTag(e)|..];
      match Find(after, EntityClose)
      case Some(k) => Some(xml[..|OpenTag(e)| + k + |EntityClose|])
      case None => Isolate(xml[1..], e)
    else Isolate(xml[1..], e)
  }

  /** `b` opens with `o`, closes with `c`, and holds no `c` in between. */
  predicate Block(b: string, o: string, c: string)
  {
    && |o| + |c| <= |b|
    && o <= b
    && b[|b| - |c|..] == c
    && forall j :: |o| <= j < |b| - |c| ==> !(c <= b[j..])
  }

  /** Every isolated block opens with the entity type's opening, closes
      with a closing tag and holds no closing tag in between. */
  lemma {:induction false} IsolateShape(xml: string, e: string)
    ensures Isolate(xml, e).Some? ==> Block(Isolate(xml, e).value, OpenTag(e), EntityClose)
    decreases |xml|
  {
    if |xml| > 0 {
      if OpenTag(e) <= xml {
        var after := xml[|OpenTag(e)|..];
        match Find(after, EntityClose)
        case Some(k) =>
          FindFirst(after, EntityClose);
          BlockAt(xml, OpenTag(e), EntityClose, after, k);
        case None =>
          IsolateShape(xml[1..], e);
      } else {
        IsolateShape(xml[1..], e);
      }
    }
  }

  /** Cutting after the first `c` that follows the opening `o` gives a
      block. */
  lemma BlockAt(xml: string, o: string, c: string, after: string, k: nat)
    requires o <= xml && after == xml[|o|..]
    requires k + |c| <= |after| && c <= after[k..]
    requires forall j :: 0 <= j < k ==> !(c <= after[j..])
    ensures |o| + k + |c| <= |xml|
    ensures Block(xml[..|o| + k + |c|], o, c)
  {
    var n := |o| + k + |c|;
    var w := xml[..n];
    assert w[n - |c|..] == c by {
      assert w[n - |c|..] == after[k..k + |c|];
    }
    assert o <= w by {
      assert w[..|o|] == xml[..|o|];
    }
    NoEarlierClose(xml, |o|, k, c, after, w);
  }

  /** A window of `xml` that ends at the first `c` after offset `o` holds
      no earlier `c` past `o`. */
  lemma NoEarlierClose(xml: string, o: nat, k: nat, c: string, after: string, w: string)
    requires o + k + |c| <= |xml| && after == xml[o..] && w == xml[..o + k + |c|]
    requires forall j :: 0 <= j < k ==> !(c <= after[j..])
    ensures forall j :: o <= j < o + k ==> !(c <= w[j..])
  {
    forall j | o <= j < o + k
      ensures !(c <= w[j..])
    {
      assert after[j - o..] == xml[j..];
      assert w[j..] == xml[j..o + k + |c|];
      if |c| <= |w[j..]| {
        assert w[j..][..|c|] == xml[j..][..|c|];
      }
    }
  }

  /** The characters that would make `subpath` mean something other than
      itself inside a JavaScript regular expression. */
  predicate IsRegexMeta(c: char)
  {
    c in "\\^$.|?*+()[]{}"
  }

  predicate Literal(subpath: string)
  {
    forall i :: 0 <= i < |subpath| ==> !IsRegexMeta(subpath[i])
  }

  /** The field names the load-options callback offers for entity type
      `subpath`: none for an empty subpath or a missing block, else every
      `<Property Name="…"` capture of the block. */
  function EntityFields(xml: string, subpath: string): (r: seq<string>)
    requires Literal(subpath)
    ensures subpath == "" ==> r == []
    ensures Isolate(xml, subpath).None? ==> r == []
    ensures forall i :: 0 <= i < |r| ==> r[i] != "" && '"' !in r[i]
  {
    if subpath == "" then []
    else
      match Isolate(xml, subpath)
      case None => []
      case Some(block) => Scan(block, PropertyOpen)
  }

  /** The field names of the `METADATA` operation: the same scan, but a
      missing block dereferences the failed match and aborts, and an empty
      subpath is not special. */
  function MetadataFields(xml: string, subpath: string): (r: Result<seq<string>, Error>)
    requires Literal(subpath)
    ensures r.Failure? <==> Isolate(xml, subpath).None?
    ensures r.Failure? ==> r.error == EntityNotFound(subpath)
    ensures r.Success? && subpath != "" ==> r.value == EntityFields(xml, subpath)
  {
    match Isolate(xml, subpath)
    case None => Failure(EntityNotFound(subpath))
    case Some(block) => Success(Scan(block, PropertyOpen))
  }

  // ---------------------------------------------------------------------
  // A rendered schema: the partner the scanners are proved against.
  // ---------------------------------------------------------------------

  /** A child of an entity type: a structural property or a navigation
      property, each with the rest of its element after the name's closing
      quote (further attributes, and children and an end tag if it has
      them), or any other markup, such as a `<Key>` element or an
      annotation. */
  datatype Member =
    | Property(name: string, rest: string)
    | Navigation(name: string, rest: string)
    | Other(text: string)

  datatype Entity = Entity(name: string, attrs: string, members: seq<Member>)

  /** A document is a sequence of entity types and other markup. */
  datatype Chunk = Markup(text: string) | Type(entity: Entity)

  function RenderMember(m: Member): string
  {
    match m
    case Property(n, r) => PropertyOpen + n + "\"" + r
    case Navigation(n, r) => NavigationOpen + n + "\"" + r
    case Other(t) => t
  }

  function RenderMembers(ms: seq<Member>): string
  {
    if |ms| == 0 then "" else RenderMember(ms[0]) + RenderMembers(ms[1..])
  }

  /** The text after the entity name's closing quote. */
  function EntityTail(e: Entity): string
  {
    e.attrs + ">" + RenderMembers(e.members) + EntityClose
  }

  function RenderEntity(e: Entity): string
  {
    EntityOpen + e.name + "\"" + EntityTail(e)
  }

  function RenderChunk(c: Chunk): string
  {
    match c
    case Markup(t) => t
    case Type(e) => RenderEntity(e)
  }

  function Render(doc: seq<Chunk>): string
  {
    if |doc| == 0 then "" else RenderChunk(doc[0]) + Render(doc[1..])
  }

  /** No suffix of `t` is a prefix of `p` or has `p` as a prefix: `t` can
      neither hold `p` nor end in the middle of it. */
  predicate Clear(t: string, p: string)
  {
    forall j :: 0 <= j < |t| ==> !(p <= t[j..]) && !(t[j..] <= p)
  }

  predicate NameOk(n: string)
  {
    n != "" && '"' !in n && '<' !in n
  }

  /** Text inside an entity type's block that neither holds nor ends in the
      middle of a property opening, an entity-type opening or a closing tag. */
  predicate Inert(t: string)
  {
    Clear(t, PropertyOpen) && Clear(t, EntityOpen) && Clear(t, EntityClose)
  }

  predicate MemberOk(m: Member)
  {
    match m
    case Property(n, r) => NameOk(n) && Inert(r)
    case Navigation(n, r) => NameOk(n) && Inert(r)
    case Other(t) => Inert(t)
  }

  predicate EntityOk(e: Entity)
  {
    NameOk(e.name) && '<' !in e.attrs && forall i :: 0 <= i < |e.members| ==> MemberOk(e.members[i])
  }

  /** Markup holds no entity-type opening, not even one cut at its end. */
  predicate ChunkOk(c: Chunk)
  {
    match c
    case Markup(t) => Clear(t, EntityOpen)
    case Type(e) => EntityOk(e)
  }

  predicate DocOk(doc: seq<Chunk>)
  {
    forall i :: 0 <= i < |doc| ==> ChunkOk(doc[i])
  }

  /** The entity-type names of a document, in order. */
  function TypeNames(doc: seq<Chunk>): (r: seq<string>)
    ensures |r| <= |doc|
  {
    if |doc| == 0 then []
    else if doc[0].Type? then [doc[0].entity.name] + TypeNames(doc[1..])
    else TypeNames(doc[1..])
  }

  /** The structural property names of an entity type, in order. */
  function PropertyNames(ms: seq<Member>): (r: seq<string>)
    ensures |r| <= |ms|
  {
    if |ms| == 0 then []
    else if ms[0].Property? then [ms[0].name] + PropertyNames(ms[1..])
    else PropertyNames(ms[1..])
  }

  /** The first entity type named `e`. */
  function FirstEntity(doc: seq<Chunk>, e: string): (r: Option<Entity>)
    ensures r.Some? ==> r.value.name == e
    ensures r.Some? ==> exists i :: 0 <= i < |doc| && doc[i] == Type(r.value)
    ensures r.None? <==> forall i :: 0 <= i < |doc| && doc[i].Type? ==> doc[i].entity.name != e
  {
    if |doc| == 0 then None
    else if doc[0].Type? && doc[0].entity.name == e then Some(doc[0].entity)
    else
      var r := FirstEntity(doc[1..], e);
      assert forall i :: 1 <= i < |doc| ==> doc[i] == doc[1..][i - 1];
      r
  }

  // ---------------------------------------------------------------------
  // Scanner lemmas.
  // ---------------------------------------------------------------------

  /** A prefix of `t + b` is a prefix of `t` or extends all of `t`. */
  lemma ClearNoStart(t: string, b: string, p: string, j: nat)
    requires Clear(t, p) && j < |t|
    ensures !(p <= (t + b)[j..])
  {
    var x := t[j..];
    assert (t + b)[j..] == x + b;
    if |p| <= |x| {
      assert (x + b)[..|p|] == x[..|p|];
    } else {
      assert (x + b)[..|x|] == x;
    }
  }

  /** Text without `<` is clear of any pattern that starts with `<`. */
  lemma NoTagClear(t: string, p: string)
    requires '<' !in t && |p| > 0 && p[0] == '<'
    ensures Clear(t, p)
  {
    forall j | 0 <= j < |t|
      ensures !(p <= t[j..]) && !(t[j..] <= p)
    {
      assert t[j..][0] == t[j];
    }
  }

  /** A tag `w + v` whose `<` comes first, whose second character differs
      from the pattern's, and that holds no other `<`, is clear of it. */
  lemma TagClear(w: string, v: string, p: string)
    requires |w| > 1 && w[0] == '<' && '<' !in w[1..] && '<' !in v
    requires |p| > 1 && p[0] == '<' && w[1] != p[1]
    ensures Clear(w + v, p)
  {
    var t := w + v;
    forall j | 0 <= j < |t|
      ensures !(p <= t[j..]) && !(t[j..] <= p)
    {
      if j == 0 {
        assert t[1] == w[1];
      } else if j < |w| {
        assert t[j..][0] == t[j] == w[1..][j - 1];
      } else {
        assert t[j..][0] == t[j] == v[j - |w|];
      }
    }
  }

  lemma ClearAppend(a: string, b: string, p: string)
    requires Clear(a, p) && Clear(b, p)
    ensures Clear(a + b, p)
  {
    var t := a + b;
    forall j | 0 <= j < |t|
      ensures !(p <= t[j..]) && !(t[j..] <= p)
    {
      if j < |a| {
        ClearNoStart(a, b, p, j);
        assert t[j..] == a[j..] + b;
        assert t[j..][..|a[j..]|] == a[j..];
      } else {
        assert t[j..] == b[j - |a|..];
      }
    }
  }

  /** Clear of a pattern is clear of every extension of it. */
  lemma ClearExtend(t: string, p: string, q: string)
    requires Clear(t, p)
    ensures Clear(t, p + q)
  {
    forall j | 0 <= j < |t|
      ensures !(p + q <= t[j..]) && !(t[j..] <= p + q)
    {
      var x := t[j..];
      assert (p + q)[..|p|] == p;
      if |p + q| <= |x| {
        assert x[..|p + q|][..|p|] == x[..|p|];
      }
      if |x| <= |p| {
        assert (p + q)[..|x|] == p[..|x|];
      } else if |x| <= |p + q| {
        assert (p + q)[..|x|][..|p|] == p;
      }
    }
  }

  /** The scan skips text in which no match can start. */
  lemma {:induction false} ScanSkip(a: string, b: string, lit: string)
    requires forall j :: 0 <= j < |a| ==> !(lit <= (a + b)[j..])
    ensures Scan(a + b, lit) == Scan(b, lit)
    decreases |a|
  {
    if |a| > 0 {
      assert (a + b)[0..] == a + b;
      assert (a + b)[1..] == a[1..] + b;
      forall j | 0 <= j < |a[1..]|
        ensures !(lit <= (a[1..] + b)[j..])
      {
        assert (a[1..] + b)[j..] == (a + b)[j + 1..];
      }
      ScanSkip(a[1..], b, lit);
    }
  }

  /** The scan passes over a clear prefix. */
  lemma ScanClear(a: string, b: string, lit: string)
    requires Clear(a, lit)
    ensures Scan(a + b, lit) == Scan(b, lit)
  {
    forall j | 0 <= j < |a|
      ensures !(lit <= (a + b)[j..])
    {
      ClearNoStart(a, b, lit, j);
    }
    ScanSkip(a, b, lit);
  }

  /** A well-formed capture is taken, and the scan resumes after its quote. */
  lemma ScanCapture(lit: string, n: string, rest: string)
    requires n != "" && '"' !in n
    ensures Scan(lit + n + "\"" + rest, lit) == [n] + Scan(rest, lit)
  {
    var s := lit + n + "\"" + rest;
    assert lit <= s;
    assert s[|lit|..] == n + "\"" + rest;
    IndexOfAfter(n, '"', rest);
    assert s[|lit|..][..|n|] == n;
    assert s[|lit| + |n| + 1..] == rest;
  }

  /** The first-match search skips text in which the pattern cannot start. */
  lemma {:induction false} FindSkip(a: string, b: string, p: string)
    requires forall j :: 0 <= j < |a| ==> !(p <= (a + b)[j..])
    ensures Find(b, p).None? ==> Find(a + b, p).None?
    ensures Find(b, p).Some? ==> Find(a + b, p).Some? && Find(a + b, p).value == |a| + Find(b, p).value
    decreases |a|
  {
    var s := a + b;
    if |a| > 0 {
      var t := a[1..] + b;
      assert s[1..] == t;
      assert !(p <= s) by {
        assert s[0..] == s;
      }
      assert forall j :: 0 <= j < |a[1..]| ==> !(p <= t[j..]) by {
        forall j | 0 <= j < |a[1..]|
          ensures !(p <= t[j..])
        {
          assert t[j..] == s[j + 1..];
        }
      }
      FindSkip(a[1..], b, p);
      FindStep(s, p);
    } else {
      assert s == b;
    }
  }

  /** Where the pattern does not start at the front, the search resumes one
      character later. */
  lemma FindStep(s: string, p: string)
    requires |s| > 0 && !(p <= s)
    ensures Find(s[1..], p).None? ==> Find(s, p).None?
    ensures Find(s[1..], p).Some? ==> Find(s, p).Some? && Find(s, p).value == Find(s[1..], p).value + 1
  {
  }

  /** Isolation skips text in which the opening cannot start. */
  lemma {:induction false} IsolateSkip(a: string, b: string, e: string)
    requires forall j :: 0 <= j < |a| ==> !(OpenTag(e) <= (a + b)[j..])
    ensures Isolate(a + b, e) == Isolate(b, e)
    decreases |a|
  {
    if |a| > 0 {
      assert (a + b)[0..] == a + b;
      assert (a + b)[1..] == a[1..] + b;
      forall j | 0 <= j < |a[1..]|
        ensures !(OpenTag(e) <= (a[1..] + b)[j..])
      {
        assert (a[1..] + b)[j..] == (a + b)[j + 1..];
      }
      IsolateSkip(a[1..], b, e);
    }
  }

  lemma IsolateClear(a: string, b: string, e: string)
    requires Clear(a, OpenTag(e))
    ensures Isolate(a + b, e) == Isolate(b, e)
  {
    forall j | 0 <= j < |a|
      ensures !(OpenTag(e) <= (a + b)[j..])
    {
      ClearNoStart(a, b, OpenTag(e), j);
    }
    IsolateSkip(a, b, e);
  }

  // ---------------------------------------------------------------------
  // Facts about the rendered pieces.
  // ---------------------------------------------------------------------

  /** Each tag literal opens with `<` and holds no other. */
  lemma OpenLiterals()
    ensures EntityOpen[0] == '<' && '<' !in EntityOpen[1..] && EntityOpen[1] == 'E'
    ensures PropertyOpen[0] == '<' && '<' !in PropertyOpen[1..] && PropertyOpen[1] == 'P'
    ensures NavigationOpen[0] == '<' && '<' !in NavigationOpen[1..] && NavigationOpen[1] == 'N'
    ensures EntityClose[0] == '<' && '<' !in EntityClose[1..] && EntityClose[1] == '/'
  {
    EntityOpenLiteral();
    PropertyOpenLiteral();
    NavigationOpenLiteral();
    EntityCloseLiteral();
  }

  lemma EntityOpenLiteral()
    ensures EntityOpen[0] == '<' && '<' !in EntityOpen[1..] && EntityOpen[1] == 'E'
  {
    assert forall i :: 1 <= i < |EntityOpen| ==> EntityOpen[i] != '<';
  }

  lemma PropertyOpenLiteral()
    ensures PropertyOpen[0] == '<' && '<' !in PropertyOpen[1..] && PropertyOpen[1] == 'P'
  {
    assert forall i :: 1 <= i < |PropertyOpen| ==> PropertyOpen[i] != '<';
  }

  lemma NavigationOpenLiteral()
    ensures NavigationOpen[0] == '<' && '<' !in NavigationOpen[1..] && NavigationOpen[1] == 'N'
  {
    assert forall i :: 1 <= i < |NavigationOpen| ==> NavigationOpen[i] != '<';
  }

  lemma EntityCloseLiteral()
    ensures EntityClose[0] == '<' && '<' !in EntityClose[1..] && EntityClose[1] == '/'
  {
    assert forall i :: 1 <= i < |EntityClose| ==> EntityClose[i] != '<';
  }

  /** A member holds no entity-type opening and no closing tag; a member
      other than a structural property holds no property opening either. */
  lemma MemberClear(m: Member)
    requires MemberOk(m)
    ensures Clear(RenderMember(m), EntityOpen)
    ensures Clear(RenderMember(m), EntityClose)
    ensures !m.Property? ==> Clear(RenderMember(m), PropertyOpen)
  {
    match m
    case Other(t) =>
    case Property(n, r) =>
      NamedClear(PropertyOpen, n, r, EntityOpen);
      NamedClear(PropertyOpen, n, r, EntityClose);
    case Navigation(n, r) =>
      NamedClear(NavigationOpen, n, r, EntityOpen);
      NamedClear(NavigationOpen, n, r, EntityClose);
      NamedClear(NavigationOpen, n, r, PropertyOpen);
  }

  /** A named element `w + n + "\"" + r` is clear of `p` when its opening
      differs from `p` in the second character and the rest is clear. */
  lemma NamedClear(w: string, n: string, r: string, p: string)
    requires w == PropertyOpen || w == NavigationOpen
    requires p == EntityOpen || p == EntityClose || (p == PropertyOpen && w == NavigationOpen)
    requires NameOk(n) && Clear(r, p)
    ensures Clear(w + n + "\"" + r, p)
  {
    OpenLiterals();
    var v := n + "\"";
    assert '<' !in v by {
      assert forall i :: 0 <= i < |v| ==> v[i] == if i < |n| then n[i] else '"';
    }
    TagClear(w, v, p);
    ClearAppend(w + v, r, p);
    assert w + n + "\"" + r == (w + v) + r;
  }

  lemma {:induction false} MembersClear(ms: seq<Member>, p: string)
    requires forall i :: 0 <= i < |ms| ==> MemberOk(ms[i])
    requires p == EntityOpen || p == EntityClose
    ensures Clear(RenderMembers(ms), p)
    decreases |ms|
  {
    if |ms| > 0 {
      MemberClear(ms[0]);
      MembersClear(ms[1..], p);
      ClearAppend(RenderMember(ms[0]), RenderMembers(ms[1..]), p);
    }
  }

  /** The closing tag holds no opening of either kind. */
  lemma CloseClear()
    ensures Clear(EntityClose, EntityOpen) && Clear(EntityClose, PropertyOpen)
  {
    OpenLiterals();
    assert EntityClose + "" == EntityClose;
    TagClear(EntityClose, "", EntityOpen);
    TagClear(EntityClose, "", PropertyOpen);
  }

  /** After its name, an entity type holds no further entity-type opening. */
  lemma TailClear(e: Entity)
    requires EntityOk(e)
    ensures Clear(EntityTail(e), EntityOpen)
  {
    OpenLiterals();
    NoTagClear(e.attrs + ">", EntityOpen);
    MembersClear(e.members, EntityOpen);
    CloseClear();
    ClearAppend(e.attrs + ">", RenderMembers(e.members), EntityOpen);
    ClearAppend(e.attrs + ">" + RenderMembers(e.members), EntityClose, EntityOpen);
  }

  // ---------------------------------------------------------------------
  // Round trips.
  // ---------------------------------------------------------------------

  /** Scanning for entity types lists every entity type's name, in document
      order, and nothing from the markup or the members. */
  lemma {:induction false} EntityNamesRoundTrip(doc: seq<Chunk>)
    requires DocOk(doc)
    ensures EntityNames(Render(doc)) == TypeNames(doc)
    decreases |doc|
  {
    if |doc| > 0 {
      var rest := Render(doc[1..]);
      assert ChunkOk(doc[0]);
      assert DocOk(doc[1..]) by {
        forall i | 0 <= i < |doc[1..]| ensures ChunkOk(doc[1..][i]) {
          assert doc[1..][i] == doc[i + 1];
        }
      }
      EntityNamesRoundTrip(doc[1..]);
      match doc[0]
      case Markup(t) =>
        ScanClear(t, rest, EntityOpen);
      case Type(e) =>
        var tail := EntityTail(e);
        assert Render(doc) == EntityOpen + e.name + "\"" + (tail + rest);
        ScanCapture(EntityOpen, e.name, tail + rest);
        TailClear(e);
        ScanClear(tail, rest, EntityOpen);
    }
  }

  /** Scanning the members of an entity type for properties lists the
      structural properties' names in order; navigation properties and the
      closing tag contribute nothing. */
  lemma {:induction false} MembersScan(ms: seq<Member>)
    requires forall i :: 0 <= i < |ms| ==> MemberOk(ms[i])
    ensures Scan(RenderMembers(ms) + EntityClose, PropertyOpen) == PropertyNames(ms)
    decreases |ms|
  {
    if |ms| == 0 {
      assert RenderMembers(ms) + EntityClose == EntityClose;
      CloseScan();
    } else {
      var m := ms[0];
      var rest := RenderMembers(ms[1..]) + EntityClose;
      MembersScan(ms[1..]);
      assert RenderMembers(ms) + EntityClose == RenderMember(m) + rest;
      match m
      case Property(n, r) =>
        PropertyCaptured(n, r, rest);
      case Navigation(n, r) =>
        NavigationNeverCaptured(n, r, rest);
      case Other(t) =>
        ScanClear(t, rest, PropertyOpen);
    }
  }

  /** The closing tag contributes no property. */
  lemma CloseScan()
    ensures Scan(EntityClose, PropertyOpen) == []
  {
    CloseClear();
    ScanClear(EntityClose, "", PropertyOpen);
    assert EntityClose + "" == EntityClose;
  }

  /** A structural property contributes exactly its name. */
  lemma PropertyCaptured(n: string, r: string, rest: string)
    requires NameOk(n) && Inert(r)
    ensures Scan(RenderMember(Property(n, r)) + rest, PropertyOpen) == [n] + Scan(rest, PropertyOpen)
  {
    assert RenderMember(Property(n, r)) + rest == PropertyOpen + n + "\"" + (r + rest);
    ScanCapture(PropertyOpen, n, r + rest);
    ScanClear(r, rest, PropertyOpen);
  }

  /** A navigation property is never taken for a structural property. */
  lemma NavigationNeverCaptured(n: string, r: string, rest: string)
    requires NameOk(n) && Inert(r)
    ensures Scan(RenderMember(Navigation(n, r)) + rest, PropertyOpen) == Scan(rest, PropertyOpen)
  {
    MemberClear(Navigation(n, r));
    ScanClear(RenderMember(Navigation(n, r)), rest, PropertyOpen);
  }

  /** Scanning an entity type's block for properties lists its structural
      properties' names in order. */
  lemma BlockScan(e: Entity)
    requires EntityOk(e)
    ensures Scan(RenderEntity(e), PropertyOpen) == PropertyNames(e.members)
  {
    var v := e.name + "\"" + e.attrs + ">";
    var body := RenderMembers(e.members) + EntityClose;
    EntitySplit(e, v, body);
    HeadClear(e.name, e.attrs, v);
    ScanClear(EntityOpen + v, body, PropertyOpen);
    MembersScan(e.members);
  }

  /** An entity type's rendering is its head tag followed by its body. */
  lemma EntitySplit(e: Entity, v: string, body: string)
    requires v == e.name + "\"" + e.attrs + ">"
    requires body == RenderMembers(e.members) + EntityClose
    ensures RenderEntity(e) == EntityOpen + v + body
  {
    RegroupEntity(EntityOpen, e.name, "\"", e.attrs, ">", RenderMembers(e.members), EntityClose);
  }

  /** Regrouping the seven pieces of an entity type's rendering. */
  lemma RegroupEntity(p: string, n: string, q: string, a: string, g: string, m: string, c: string)
    ensures p + n + q + (a + g + m + c) == p + (n + q + a + g) + (m + c)
  {
  }

  /** An entity type's head tag holds no property opening. */
  lemma HeadClear(name: string, attrs: string, v: string)
    requires NameOk(name) && '<' !in attrs && v == name + "\"" + attrs + ">"
    ensures Clear(EntityOpen + v, PropertyOpen)
  {
    OpenLiterals();
    TagClear(EntityOpen, v, PropertyOpen);
  }

  /** Two different quote-free names give openings that cannot overlap. */
  lemma OpenTagsDiffer(e: string, n: string, rest: string)
    requires '"' !in e && '"' !in n && e != n
    ensures !(OpenTag(e) <= EntityOpen + n + "\"" + rest)
  {
    var s := EntityOpen + n + "\"" + rest;
    var o := OpenTag(e);
    var k := |EntityOpen|;
    if |e| < |n| {
      assert o[k + |e|] == '"' && s[k + |e|] == n[|e|];
    } else if |e| > |n| {
      assert o[k + |n|] == e[|n|] && s[k + |n|] == '"';
    } else {
      var i :| 0 <= i < |e| && e[i] != n[i];
      assert o[k + i] == e[i] && s[k + i] == n[i];
    }
  }

  /** Past its leading `<`, an entity type holds no entity-type opening. */
  lemma AfterLtClear(en: Entity)
    requires EntityOk(en)
    ensures Clear(RenderEntity(en)[1..], EntityOpen)
  {
    OpenLiterals();
    var head := EntityOpen[1..] + en.name + "\"";
    assert RenderEntity(en)[1..] == head + EntityTail(en);
    NoTagClear(head, EntityOpen);
    TailClear(en);
    ClearAppend(head, EntityTail(en), EntityOpen);
  }

  /** Where the opening does not start at the front, isolation resumes
      one character later. */
  lemma IsolateStep(xml: string, e: string)
    requires |xml| > 0 && !(OpenTag(e) <= xml)
    ensures Isolate(xml, e) == Isolate(xml[1..], e)
  {
  }

  /** Where the opening starts at the front and a closing tag follows it,
      the block runs up to the first closing tag. */
  lemma IsolateHere(xml: string, e: string, k: nat)
    requires OpenTag(e) <= xml
    requires Find(xml[|OpenTag(e)|..], EntityClose).Some?
    requires Find(xml[|OpenTag(e)|..], EntityClose).value == k
    ensures |OpenTag(e)| + k + |EntityClose| <= |xml|
    ensures Isolate(xml, e) == Some(xml[..|OpenTag(e)| + k + |EntityClose|])
  {
  }

  /** An entity type whose name is not `e` holds no opening of `e`. */
  lemma OtherEntityClear(en: Entity, e: string, rest: string)
    requires EntityOk(en) && '"' !in e && en.name != e
    ensures Isolate(RenderEntity(en) + rest, e) == Isolate(rest, e)
  {
    var u := RenderEntity(en)[1..];
    OtherEntityFront(en, e, rest, u);
    AfterLtIsolate(en, e, rest, u);
  }

  /** The opening of another entity type does not start an `e` block. */
  lemma OtherEntityFront(en: Entity, e: string, rest: string, u: string)
    requires EntityOk(en) && '"' !in e && en.name != e
    requires u == RenderEntity(en)[1..]
    ensures Isolate(RenderEntity(en) + rest, e) == Isolate(u + rest, e)
  {
    var r := RenderEntity(en);
    OtherOpening(en, e, rest);
    DropFront(r, rest, u);
    IsolateStep(r + rest, e);
  }

  /** An entity type named other than `e` does not open with `e`'s tag. */
  lemma OtherOpening(en: Entity, e: string, rest: string)
    requires EntityOk(en) && '"' !in e && en.name != e
    ensures |RenderEntity(en)| > 0 && !(OpenTag(e) <= RenderEntity(en) + rest)
  {
    assert RenderEntity(en) + rest == EntityOpen + en.name + "\"" + (EntityTail(en) + rest);
    OpenTagsDiffer(e, en.name, EntityTail(en) + rest);
  }

  /** Dropping the first character of a non-empty front. */
  lemma DropFront(r: string, rest: string, u: string)
    requires |r| > 0 && u == r[1..]
    ensures (r + rest)[1..] == u + rest
  {
  }

  /** Past its leading `<`, an entity type does not affect isolation. */
  lemma AfterLtIsolate(en: Entity, e: string, rest: string, u: string)
    requires EntityOk(en) && u == RenderEntity(en)[1..]
    ensures Isolate(u + rest, e) == Isolate(rest, e)
  {
    AfterLtClear(en);
    ClearExtend(u, EntityOpen, e + "\"");
    assert OpenTag(e) == EntityOpen + (e + "\"");
    IsolateClear(u, rest, e);
  }

  /** The block of the entity type at the front is exactly its rendering. */
  lemma OwnBlock(en: Entity, rest: string)
    requires EntityOk(en)
    ensures Isolate(RenderEntity(en) + rest, en.name) == Some(RenderEntity(en))
  {
    var o := OpenTag(en.name);
    var a := en.attrs + ">" + RenderMembers(en.members);
    OwnRender(en, o, a);
    var s := RenderEntity(en) + rest;
    Pieces(o, a, EntityClose, rest, s);
    OwnClose(en, rest);
    IsolateHere(s, en.name, |a|);
  }

  /** An entity type's rendering is its opening, its inside, and the
      closing tag. */
  lemma OwnRender(en: Entity, o: string, a: string)
    requires o == OpenTag(en.name) && a == en.attrs + ">" + RenderMembers(en.members)
    ensures RenderEntity(en) == o + a + EntityClose
  {
  }

  /** Cutting `o + a + c + rest` at the ends of `o` and of `c`. */
  lemma Pieces(o: string, a: string, c: string, rest: string, s: string)
    requires s == o + a + c + rest
    ensures |o| + |a| + |c| <= |s|
    ensures s[|o|..] == a + (c + rest)
    ensures s[..|o| + |a| + |c|] == o + a + c
  {
  }

  /** Inside an entity type's block the first closing tag is its own. */
  lemma OwnClose(en: Entity, rest: string)
    requires EntityOk(en)
    ensures var a := en.attrs + ">" + RenderMembers(en.members);
      Find(a + (EntityClose + rest), EntityClose).Some?
      && Find(a + (EntityClose + rest), EntityClose).value == |a|
  {
    OpenLiterals();
    var a := en.attrs + ">" + RenderMembers(en.members);
    NoTagClear(en.attrs + ">", EntityClose);
    MembersClear(en.members, EntityClose);
    ClearAppend(en.attrs + ">", RenderMembers(en.members), EntityClose);
    forall j | 0 <= j < |a|
      ensures !(EntityClose <= (a + (EntityClose + rest))[j..])
    {
      ClearNoStart(a, EntityClose + rest, EntityClose, j);
    }
    FindSkip(a, EntityClose + rest, EntityClose);
    assert Find(EntityClose + rest, EntityClose) == Some(0);
  }

  // ---------------------------------------------------------------------
  // A keyed entity type.
  // ---------------------------------------------------------------------

  /** The key of an entity type whose key property is `Id`, written
      `<Key><PropertyRef Name="Id"/></Key>`. */
  const KeyOpen: string := "<Key>"
  const KeyRef: string := "<PropertyRef Name=\"Id\"/>"
  const KeyClose: string := "</Key>"
  const KeyElement: string := KeyOpen + KeyRef + KeyClose

  /** A single tag, `<` and then no other `<`, that neither starts with `p`
      nor is a start of `p`, is clear of `p`. */
  lemma LoneTagClear(t: string, p: string)
    requires |t| > 0 && t[0] == '<' && '<' !in t[1..]
    requires |p| > 0 && p[0] == '<'
    requires !(p <= t) && !(t <= p)
    ensures Clear(t, p)
  {
    forall j | 0 <= j < |t|
      ensures !(p <= t[j..]) && !(t[j..] <= p)
    {
      if j == 0 {
        assert t[j..] == t;
      } else {
        assert t[j..][0] == t[j] == t[1..][j - 1];
      }
    }
  }

  /** Text without `<` is inert. */
  lemma PlainInert(t: string)
    requires '<' !in t
    ensures Inert(t)
  {
    OpenLiterals();
    NoTagClear(t, PropertyOpen);
    NoTagClear(t, EntityOpen);
    NoTagClear(t, EntityClose);
  }

  /** A lone tag that differs from each of the three patterns is inert. */
  lemma LoneTagInert(t: string)
    requires |t| > 0 && t[0] == '<' && '<' !in t[1..]
    requires !(PropertyOpen <= t) && !(t <= PropertyOpen)
    requires !(EntityOpen <= t) && !(t <= EntityOpen)
    requires !(EntityClose <= t) && !(t <= EntityClose)
    ensures Inert(t)
  {
    OpenLiterals();
    LoneTagClear(t, PropertyOpen);
    LoneTagClear(t, EntityOpen);
    LoneTagClear(t, EntityClose);
  }

  lemma InertAppend(a: string, b: string)
    requires Inert(a) && Inert(b)
    ensures Inert(a + b)
  {
    ClearAppend(a, b, PropertyOpen);
    ClearAppend(a, b, EntityOpen);
    ClearAppend(a, b, EntityClose);
  }

  /** The key element is a member the scan passes over: `<PropertyRef Name=`
      is not `<Property Name="`. */
  lemma KeyElementInert()
    ensures MemberOk(Other(KeyElement))
  {
    KeyOpenInert(KeyOpen);
    PropertyRefInert(KeyRef);
    KeyCloseInert(KeyClose);
    InertAppend(KeyOpen, KeyRef);
    InertAppend(KeyOpen + KeyRef, KeyClose);
  }

  /** A character other than `<` in each position past the first. */
  predicate LoneTag(t: string)
  {
    |t| > 0 && t[0] == '<' && forall i :: 1 <= i < |t| ==> t[i] != '<'
  }

  /** A start of `p` and `t` would agree at position `i`. */
  lemma Mismatch(t: string, p: string, i: nat)
    requires i < |t| && i < |p| && t[i] != p[i]
    ensures !(p <= t) && !(t <= p)
  {
  }

  lemma LoneTagFacts(t: string)
    requires LoneTag(t)
    ensures |t| > 0 && t[0] == '<' && '<' !in t[1..]
  {
    assert forall i :: 0 <= i < |t[1..]| ==> t[1..][i] == t[i + 1];
  }

  lemma KeyOpenInert(t: string)
    requires t == "<Key>"
    ensures Inert(t)
  {
    assert LoneTag(t);
    LoneTagFacts(t);
    OpenLiterals();
    Mismatch(t, PropertyOpen, 1);
    Mismatch(t, EntityOpen, 1);
    Mismatch(t, EntityClose, 1);
    LoneTagInert(t);
  }

  lemma KeyCloseInert(t: string)
    requires t == "</Key>"
    ensures Inert(t)
  {
    assert LoneTag(t);
    LoneTagFacts(t);
    OpenLiterals();
    assert EntityClose[2] == 'E';
    Mismatch(t, PropertyOpen, 1);
    Mismatch(t, EntityOpen, 1);
    Mismatch(t, EntityClose, 2);
    LoneTagInert(t);
  }

  lemma PropertyRefInert(t: string)
    requires t == "<PropertyRef Name=\"Id\"/>"
    ensures Inert(t)
  {
    assert LoneTag(t);
    LoneTagFacts(t);
    OpenLiterals();
    assert PropertyOpen[9] == ' ';
    Mismatch(t, PropertyOpen, 9);
    Mismatch(t, EntityOpen, 1);
    Mismatch(t, EntityClose, 1);
    LoneTagInert(t);
  }

  /** An entity type as a service describes it: its key first, then a
      structural property and a navigation property. */
  const ContactName: string := "Contact"
  const IdRest: string := " Type=\"Edm.Guid\" Nullable=\"false\"/>"
  const OwnerRest: string := " Type=\"Tns.Contact\"/>"
  const Contact: Entity :=
    Entity(ContactName, "", [Other(KeyElement), Property("Id", IdRest), Navigation("Owner", OwnerRest)])

  lemma ContactOk()
    ensures EntityOk(Contact)
  {
    KeyElementInert();
    IdPropertyOk();
    OwnerNavigationOk();
    assert NameOk(ContactName) by {
      assert forall i :: 0 <= i < |ContactName| ==> ContactName[i] != '"' && ContactName[i] != '<';
    }
  }

  lemma IdPropertyOk()
    ensures MemberOk(Property("Id", IdRest))
  {
    assert forall i :: 0 <= i < |IdRest| ==> IdRest[i] != '<';
    PlainInert(IdRest);
    assert forall i :: 0 <= i < |"Id"| ==> "Id"[i] != '"' && "Id"[i] != '<';
  }

  lemma OwnerNavigationOk()
    ensures MemberOk(Navigation("Owner", OwnerRest))
  {
    assert forall i :: 0 <= i < |OwnerRest| ==> OwnerRest[i] != '<';
    PlainInert(OwnerRest);
    assert forall i :: 0 <= i < |"Owner"| ==> "Owner"[i] != '"' && "Owner"[i] != '<';
  }

  lemma ContactNamePlain()
    ensures '"' !in ContactName && Literal(ContactName) && ContactName != ""
  {
    assert forall i :: 0 <= i < |ContactName| ==> !IsRegexMeta(ContactName[i]);
  }

  /** The fields offered for a keyed entity type are its structural
      properties: the key adds nothing. */
  lemma KeyedEntityFields(doc: seq<Chunk>)
    requires doc == [Type(Contact)]
    ensures Literal(ContactName) && EntityFields(Render(doc), ContactName) == ["Id"]
  {
    ContactOk();
    ContactNamePlain();
    assert ChunkOk(doc[0]);
    EntityFieldsRoundTrip(doc, ContactName);
    ContactFirst(doc);
    ThreeMembers(Contact.members[0], Contact.members[1], Contact.members[2], Contact.members);
  }

  /** Of a key, a property and a navigation property, only the property's
      name is listed. */
  lemma ThreeMembers(k: Member, p: Member, n: Member, ms: seq<Member>)
    requires k.Other? && p.Property? && n.Navigation? && ms == [k, p, n]
    ensures PropertyNames(ms) == [p.name]
  {
    var t, u := [p, n], [n];
    assert PropertyNames(u) == [] by {
      assert u[1..] == [];
    }
    assert PropertyNames(t) == [p.name] by {
      assert t[1..] == u;
    }
    assert ms[1..] == t;
  }

  lemma ContactFirst(doc: seq<Chunk>)
    requires doc == [Type(Contact)]
    ensures FirstEntity(doc, ContactName) == Some(Contact)
  {
  }

  /** Isolating entity type `e` in a rendered document gives the rendering
      of the first entity type named `e`, or nothing when there is none. */
  lemma {:induction false} IsolateRoundTrip(doc: seq<Chunk>, e: string)
    requires DocOk(doc) && '"' !in e
    ensures Isolate(Render(doc), e)
            == (match FirstEntity(doc, e) case None => None case Some(en) => Some(RenderEntity(en)))
    decreases |doc|
  {
    if |doc| > 0 {
      var rest := Render(doc[1..]);
      assert ChunkOk(doc[0]);
      assert DocOk(doc[1..]) by {
        forall i | 0 <= i < |doc[1..]| ensures ChunkOk(doc[1..][i]) {
          assert doc[1..][i] == doc[i + 1];
        }
      }
      match doc[0]
      case Markup(t) =>
        IsolateRoundTrip(doc[1..], e);
        ClearExtend(t, EntityOpen, e + "\"");
        assert OpenTag(e) == EntityOpen + (e + "\"");
        IsolateClear(t, rest, e);
      case Type(en) =>
        if en.name == e {
          OwnBlock(en, rest);
        } else {
          IsolateRoundTrip(doc[1..], e);
          OtherEntityClear(en, e, rest);
        }
    } else {
      assert Render(doc) == "";
    }
  }

  /** The fields offered for entity type `e` of a rendered document are the
      structural property names of the first entity type named `e`, or none
      when there is no such entity type or `e` is empty. */
  lemma EntityFieldsRoundTrip(doc: seq<Chunk>, e: string)
    requires DocOk(doc) && '"' !in e && Literal(e)
    ensures EntityFields(Render(doc), e)
            == (match FirstEntity(doc, e)
                case None => []
                case Some(en) => if e == "" then [] else PropertyNames(en.members))
  {
    IsolateRoundTrip(doc, e);
    match FirstEntity(doc, e)
    case None =>
    case Some(en) =>
      if e != "" {
        assert DocOk(doc);
        var i :| 0 <= i < |doc| && doc[i] == Type(en);
        assert ChunkOk(doc[i]);
        BlockScan(en);
      }
  }
}
