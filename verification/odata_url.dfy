/** OData URL building: the collection URL `{base}/0/odata/{subpath}`, the
    system query options `$select`, `$top`, `$filter`, `$expand` of a GET
    (section 5.1 of OData Version 4.0 Part 2: URL Conventions), appended in
    that fixed order, and the `Entity(id)` key form of PATCH and DELETE. */
module ODataUrl {
  import opened Wrappers
  import opened Strings
  import opened Numerals
  import opened UriEncoding

  const ODataPath: string := "/0/odata/"

  /** `${creatioUrl}/0/odata/${subpath}`. */
  function CollectionUrl(base: string, subpath: string): string
  {
    base + ODataPath + subpath
  }

  /** The `select` parameter: a list from the multi-option field, or a
      comma-separated text. */
  datatype SelectParam = SelectList(fields: seq<string>) | SelectText(text: string)

  /** `Array.isArray(p) ? p : (p ? p.split(',').map(s => s.trim()) : [])`. */
  function SelectFields(p: SelectParam): (r: seq<string>)
    ensures p.SelectList? ==> r == p.fields
    ensures p.SelectText? && p.text == "" ==> r == []
    ensures p.SelectText? && p.text != "" ==>
      |r| == |Split(p.text, ',')| && forall i :: 0 <= i < |r| ==> r[i] == Trim(Split(p.text, ',')[i])
  {
    match p
    case SelectList(fields) => fields
    case SelectText(text) =>
      if text == "" then []
      else
        var parts := Split(text, ',');
        seq(|parts|, i requires 0 <= i < |parts| => Trim(parts[i]))
  }

  /** A system query option `name=value`, the value already encoded. */
  datatype QueryOption = QueryOption(name: string, value: string)

  /** The position each option takes in the query string. */
  function Rank(name: string): nat
  {
    if name == "$select" then 0
    else if name == "$top" then 1
    else if name == "$filter" then 2
    else if name == "$expand" then 3
    else 4
  }

  /** Only the four system query options, each at most once, in rank order. */
  predicate Ranked(r: seq<QueryOption>)
  {
    && (forall i :: 0 <= i < |r| ==> Rank(r[i].name) < 4)
    && (forall i, j :: 0 <= i < j < |r| ==> Rank(r[i].name) < Rank(r[j].name))
  }

  predicate HasOption(opts: seq<QueryOption>, name: string)
  {
    exists i :: 0 <= i < |opts| && opts[i].name == name
  }

  /** The query options of a GET, before any property is established. */
  function QueryOptions(select: seq<string>, top: int, filter: string, expand: string)
    : seq<QueryOption>
  {
    (if |select| > 0 then [SelectOption(select)] else [])
    + (if top != 0 then [TopOption(top)] else [])
    + (if filter != "" then [FilterOption(filter)] else [])
    + (if expand != "" then [ExpandOption(expand)] else [])
  }

  function SelectOption(select: seq<string>): QueryOption
  {
    QueryOption("$select", Encode(Join(select, ",")))
  }

  function TopOption(top: int): QueryOption
  {
    QueryOption("$top", IntToString(top))
  }

  function FilterOption(filter: string): QueryOption
  {
    QueryOption("$filter", Encode(filter))
  }

  function ExpandOption(expand: string): QueryOption
  {
    QueryOption("$expand", Encode(expand))
  }

  /** There are no options exactly when no parameter is set. */
  lemma QueryOptionsEmpty(select: seq<string>, top: int, filter: string, expand: string)
    ensures |QueryOptions(select, top, filter, expand)| == 0
            <==> |select| == 0 && top == 0 && filter == "" && expand == ""
  {
  }

  /** Every option is one of the four, and only when its parameter is set. */
  lemma QueryOptionMember(select: seq<string>, top: int, filter: string, expand: string, i: nat)
    requires i < |QueryOptions(select, top, filter, expand)|
    ensures var o := QueryOptions(select, top, filter, expand)[i];
      || (o == SelectOption(select) && |select| > 0)
      || (o == TopOption(top) && top != 0)
      || (o == FilterOption(filter) && filter != "")
      || (o == ExpandOption(expand) && expand != "")
  {
  }

  /** The options come in the order `$select`, `$top`, `$filter`, `$expand`,
      and there are no others. */
  lemma QueryOptionsOrdered(select: seq<string>, top: int, filter: string, expand: string)
    ensures Ranked(QueryOptions(select, top, filter, expand))
  {
    RankedPick(SelectOption(select), TopOption(top), FilterOption(filter), ExpandOption(expand),
               |select| > 0, top != 0, filter != "", expand != "");
  }

  /** Picking some of four options ranked 0 to 3, in that order, keeps
      their ranks strictly increasing. */
  lemma RankedPick(o0: QueryOption, o1: QueryOption, o2: QueryOption, o3: QueryOption,
                   b0: bool, b1: bool, b2: bool, b3: bool)
    requires Rank(o0.name) == 0 && Rank(o1.name) == 1 && Rank(o2.name) == 2 && Rank(o3.name) == 3
    ensures Ranked((if b0 then [o0] else []) + (if b1 then [o1] else [])
                   + (if b2 then [o2] else []) + (if b3 then [o3] else []))
  {
    var s, t, f, e := if b0 then [o0] else [], if b1 then [o1] else [], if b2 then [o2] else [], if b3 then [o3] else [];
    var r := s + t + f + e;
    forall i | 0 <= i < |r|
      ensures Rank(r[i].name) == (if i < |s| then 0 else if i < |s| + |t| then 1 else if i < |s| + |t| + |f| then 2 else 3)
    {
      if i < |s| {
        assert r[i] == o0;
      } else if i < |s| + |t| {
        assert r[i] == o1;
      } else if i < |s| + |t| + |f| {
        assert r[i] == o2;
      } else {
        assert r[i] == o3;
      }
    }
  }

  /** Each option is present exactly when its parameter is non-empty
      (`top` non-zero). */
  lemma QueryOptionsPresence(select: seq<string>, top: int, filter: string, expand: string)
    ensures var r := QueryOptions(select, top, filter, expand);
      && (HasOption(r, "$select") <==> |select| > 0)
      && (HasOption(r, "$top") <==> top != 0)
      && (HasOption(r, "$filter") <==> filter != "")
      && (HasOption(r, "$expand") <==> expand != "")
  {
    var r := QueryOptions(select, top, filter, expand);
    var s := if |select| > 0 then [SelectOption(select)] else [];
    var t := if top != 0 then [TopOption(top)] else [];
    var f := if filter != "" then [FilterOption(filter)] else [];
    var e := if expand != "" then [ExpandOption(expand)] else [];
    assert r == s + t + f + e;
    if |select| > 0 { assert r[0].name == "$select"; }
    if top != 0 { assert r[|s|].name == "$top"; }
    if filter != "" { assert r[|s| + |t|].name == "$filter"; }
    if expand != "" { assert r[|s| + |t| + |f|].name == "$expand"; }
    forall i | 0 <= i < |r|
      ensures r[i].name == "$select" ==> |select| > 0
      ensures r[i].name == "$top" ==> top != 0
      ensures r[i].name == "$filter" ==> filter != ""
      ensures r[i].name == "$expand" ==> expand != ""
    {
      QueryOptionMember(select, top, filter, expand, i);
    }
  }

  /** Encoded text holds neither of the query delimiters `&` and `=`. */
  lemma EncodedIsDelimiterFree(s: string)
    ensures '&' !in Encode(s) && '=' !in Encode(s)
  {
  }

  /** A rendered integer holds neither of the query delimiters. */
  lemma IntIsDelimiterFree(n: int)
    ensures '&' !in IntToString(n) && '=' !in IntToString(n)
  {
  }

  /** Each option's value reads back as its parameter and holds no
      delimiter: `$select` as the comma-joined field list, `$top` as the
      number, `$filter` and `$expand` as the raw text. */
  lemma OptionValues(select: seq<string>, top: int, filter: string, expand: string)
    ensures Decode(SelectOption(select).value) == Some(Join(select, ","))
    ensures ParseInt(TopOption(top).value) == Some(top)
    ensures Decode(FilterOption(filter).value) == Some(filter)
    ensures Decode(ExpandOption(expand).value) == Some(expand)
    ensures '&' !in SelectOption(select).value && '=' !in SelectOption(select).value
    ensures '&' !in TopOption(top).value && '=' !in TopOption(top).value
    ensures '&' !in FilterOption(filter).value && '=' !in FilterOption(filter).value
    ensures '&' !in ExpandOption(expand).value && '=' !in ExpandOption(expand).value
  {
    DecodeEncode(Join(select, ","));
    DecodeEncode(filter);
    DecodeEncode(expand);
    IntRoundTrip(top);
    EncodedIsDelimiterFree(Join(select, ","));
    EncodedIsDelimiterFree(filter);
    EncodedIsDelimiterFree(expand);
    IntIsDelimiterFree(top);
  }

  /** Each option's value in the query decodes back to what the caller
      asked for. */
  lemma QueryOptionsValues(select: seq<string>, top: int, filter: string, expand: string)
    ensures var r := QueryOptions(select, top, filter, expand);
      && (forall i :: 0 <= i < |r| && r[i].name == "$select" ==> Decode(r[i].value) == Some(Join(select, ",")))
      && (forall i :: 0 <= i < |r| && r[i].name == "$top" ==> ParseInt(r[i].value) == Some(top))
      && (forall i :: 0 <= i < |r| && r[i].name == "$filter" ==> Decode(r[i].value) == Some(filter))
      && (forall i :: 0 <= i < |r| && r[i].name == "$expand" ==> Decode(r[i].value) == Some(expand))
  {
    var r := QueryOptions(select, top, filter, expand);
    OptionValues(select, top, filter, expand);
    forall i | 0 <= i < |r|
      ensures r[i].name == "$select" ==> Decode(r[i].value) == Some(Join(select, ","))
      ensures r[i].name == "$top" ==> ParseInt(r[i].value) == Some(top)
      ensures r[i].name == "$filter" ==> Decode(r[i].value) == Some(filter)
      ensures r[i].name == "$expand" ==> Decode(r[i].value) == Some(expand)
    {
      QueryOptionMember(select, top, filter, expand, i);
    }
  }

  function RenderOption(o: QueryOption): string
  {
    o.name + "=" + o.value
  }

  /** The query string: the options joined with `&`. */
  function RenderQuery(opts: seq<QueryOption>): string
  {
    Join(seq(|opts|, i requires 0 <= i < |opts| => RenderOption(opts[i])), "&")
  }

  /** No option name or value holds a query delimiter. */
  lemma QueryOptionsDelimiterFree(select: seq<string>, top: int, filter: string, expand: string)
    ensures var opts := QueryOptions(select, top, filter, expand);
      forall i :: 0 <= i < |opts| ==>
        '&' !in opts[i].name && '=' !in opts[i].name && '&' !in opts[i].value && '=' !in opts[i].value
  {
    var opts := QueryOptions(select, top, filter, expand);
    OptionValues(select, top, filter, expand);
    NamesDelimiterFree();
    forall i | 0 <= i < |opts|
      ensures '&' !in opts[i].name && '=' !in opts[i].name && '&' !in opts[i].value && '=' !in opts[i].value
    {
      QueryOptionMember(select, top, filter, expand, i);
    }
  }

  lemma NamesDelimiterFree()
    ensures '&' !in "$select" && '=' !in "$select" && '&' !in "$top" && '=' !in "$top"
    ensures '&' !in "$filter" && '=' !in "$filter" && '&' !in "$expand" && '=' !in "$expand"
  {
  }

  /** The GET URL: the collection URL, then `?` and the query only when at
      least one option is present. */
  function GetUrl(base: string, subpath: string, select: seq<string>, top: int,
                  filter: string, expand: string): (url: string)
    ensures CollectionUrl(base, subpath) <= url
    ensures url == CollectionUrl(base, subpath)
            <==> |select| == 0 && top == 0 && filter == "" && expand == ""
  {
    var opts := QueryOptions(select, top, filter, expand);
    QueryOptionsEmpty(select, top, filter, expand);
    if |opts| > 0 then CollectionUrl(base, subpath) + "?" + RenderQuery(opts)
    else CollectionUrl(base, subpath)
  }

  /** Reads one `name=value` pair back. */
  function ParseOption(p: string): QueryOption
  {
    match IndexOf(p, '=')
    case None => QueryOption(p, "")
    case Some(k) => QueryOption(p[..k], p[k + 1..])
  }

  /** Reads a query string back into its options. */
  function ParseQuery(q: string): seq<QueryOption>
  {
    var parts := Split(q, '&');
    seq(|parts|, i requires 0 <= i < |parts| => ParseOption(parts[i]))
  }

  /** Options whose names are free of `&` and `=` and whose values are free
      of `&` read back from their query string unchanged. */
  lemma QueryRoundTrip(opts: seq<QueryOption>)
    requires |opts| > 0
    requires forall i :: 0 <= i < |opts| ==> '&' !in opts[i].name && '=' !in opts[i].name
    requires forall i :: 0 <= i < |opts| ==> '&' !in opts[i].value
    ensures ParseQuery(RenderQuery(opts)) == opts
  {
    var rendered := seq(|opts|, i requires 0 <= i < |opts| => RenderOption(opts[i]));
    forall i | 0 <= i < |rendered|
      ensures '&' !in rendered[i]
    {
      assert rendered[i] == opts[i].name + ['='] + opts[i].value;
    }
    JoinSplit(rendered, '&');
    var parsed := ParseQuery(RenderQuery(opts));
    forall i | 0 <= i < |opts|
      ensures parsed[i] == opts[i]
    {
      var o := opts[i];
      var p := o.name + ['='] + o.value;
      assert rendered[i] == p;
      IndexOfAfter(o.name, '=', o.value);
      assert p[..|o.name|] == o.name && p[|o.name| + 1..] == o.value;
    }
  }

  /** A GET URL with at least one option is the collection URL, `?`, and a
      query string that reads back as exactly the query options. */
  lemma GetUrlRoundTrip(base: string, subpath: string, select: seq<string>, top: int,
                        filter: string, expand: string)
    requires |select| > 0 || top != 0 || filter != "" || expand != ""
    ensures var opts := QueryOptions(select, top, filter, expand);
      && GetUrl(base, subpath, select, top, filter, expand)
         == CollectionUrl(base, subpath) + "?" + RenderQuery(opts)
      && ParseQuery(RenderQuery(opts)) == opts
  {
    var opts := QueryOptions(select, top, filter, expand);
    QueryOptionsEmpty(select, top, filter, expand);
    QueryOptionsDelimiterFree(select, top, filter, expand);
    QueryRoundTrip(opts);
  }

  /** Two plain field names are selected as `a%2Cb`. */
  lemma EncodeTwoNames(a: string, b: string)
    requires forall i :: 0 <= i < |a| ==> Unreserved(a[i])
    requires forall i :: 0 <= i < |b| ==> Unreserved(b[i])
    ensures Encode(Join([a, b], ",")) == a + "%2C" + b
  {
    JoinCons(a, [b], ",");
    EncodeAppend(a + ",", b);
    EncodeAppend(a, ",");
    EncodeUnreserved(a);
    EncodeUnreserved(b);
    CommaEncoding();
    assert Encode(",") == EncodeChar(',') + Encode("");
  }

  /** Two options render as `n1=v1&n2=v2`. */
  lemma RenderTwo(o1: QueryOption, o2: QueryOption)
    ensures RenderQuery([o1, o2]) == o1.name + "=" + o1.value + "&" + o2.name + "=" + o2.value
  {
    var opts := [o1, o2];
    var rendered := seq(|opts|, i requires 0 <= i < |opts| => RenderOption(opts[i]));
    assert rendered == [RenderOption(o1)] + [RenderOption(o2)];
    JoinCons(RenderOption(o1), [RenderOption(o2)], "&");
  }

  /** With only `select` and `top` set, the options are exactly those two. */
  lemma SelectTopOptions(select: seq<string>, top: int)
    requires |select| > 0 && top != 0
    ensures QueryOptions(select, top, "", "") == [SelectOption(select), TopOption(top)]
  {
  }

  /** Selecting two plain field names with a non-zero `top` and nothing
      else puts `$select` before `$top`. */
  lemma GetUrlSelectTop(base: string, subpath: string, a: string, b: string, top: int)
    requires forall i :: 0 <= i < |a| ==> Unreserved(a[i])
    requires forall i :: 0 <= i < |b| ==> Unreserved(b[i])
    requires top != 0
    ensures GetUrl(base, subpath, [a, b], top, "", "")
            == CollectionUrl(base, subpath) + "?" + "$select" + "=" + (a + "%2C" + b) + "&" + "$top" + "=" + IntToString(top)
  {
    EncodeTwoNames(a, b);
    SelectTopOptions([a, b], top);
    RenderTwo(SelectOption([a, b]), TopOption(top));
  }

  /** The URL the repository's own test expects for
      `subpath=Contact, select=[Name, Email], top=10`, written in three
      pieces: collection, `$select` option, `$top` option. */
  lemma GetUrlExample()
    ensures GetUrl("https://test.creatio.com", "Contact", ["Name", "Email"], 10, "", "")
            == "https://test.creatio.com/0/odata/Contact" + "?$select=Name%2CEmail" + "&$top=10"
  {
    var a, b := "Name", "Email";
    assert forall i :: 0 <= i < |a| ==> Unreserved(a[i]);
    assert forall i :: 0 <= i < |b| ==> Unreserved(b[i]);
    GetUrlSelectTop("https://test.creatio.com", "Contact", a, b, 10);
    assert IntToString(10) == "10" by {
      assert NatToDigits(10) == NatToDigits(1) + [DigitChar(0)];
    }
    ExampleCollection();
    ExampleSelect();
    ExampleTop();
    Regroup(CollectionUrl("https://test.creatio.com", "Contact"), "?", "$select", "=", a + "%2C" + b,
            "&", "$top", "=", "10");
  }

  lemma Regroup(c: string, q: string, n1: string, e1: string, v1: string,
                amp: string, n2: string, e2: string, v2: string)
    ensures c + q + n1 + e1 + v1 + amp + n2 + e2 + v2 == c + (q + n1 + e1 + v1) + (amp + n2 + e2 + v2)
  {
  }

  lemma ExampleCollection()
    ensures CollectionUrl("https://test.creatio.com", "Contact") == "https://test.creatio.com/0/odata/Contact"
  {
  }

  lemma ExampleSelect()
    ensures "?" + "$select" + "=" + ("Name" + "%2C" + "Email") == "?$select=Name%2CEmail"
  {
  }

  lemma ExampleTop()
    ensures "&" + "$top" + "=" + "10" == "&$top=10"
  {
  }

  /** `${creatioUrl}/0/odata/${subpath}(${id})` when `id` is non-empty, else
      the collection URL (PATCH and DELETE). */
  function EntityUrl(base: string, subpath: string, id: string): (url: string)
    ensures CollectionUrl(base, subpath) <= url
    ensures id == "" ==> url == CollectionUrl(base, subpath)
  {
    if id != "" then CollectionUrl(base, subpath) + "(" + id + ")" else CollectionUrl(base, subpath)
  }

  /** Reads the key back from a URL that extends the collection URL `coll`. */
  function KeyOf(url: string, coll: string): Option<string>
  {
    if coll <= url && |url| >= |coll| + 2 && url[|coll|] == '(' && url[|url| - 1] == ')'
    then Some(url[|coll| + 1..|url| - 1])
    else None
  }

  /** The key form carries exactly the given id, and no key is added for an
      empty id. */
  lemma EntityUrlKey(base: string, subpath: string, id: string)
    ensures KeyOf(EntityUrl(base, subpath, id), CollectionUrl(base, subpath))
            == (if id == "" then None else Some(id))
  {
    var coll := CollectionUrl(base, subpath);
    if id != "" {
      var url := coll + "(" + id + ")";
      assert url[|coll| + 1..|url| - 1] == id;
    }
  }
}
