/** The JSON body of POST and PATCH: the custom body passed through when
    `useBody` is set, otherwise an object built from the `{fieldName,
    fieldValue}` pairs in order, one property assignment per pair. */
module RequestBody {
  import opened Wrappers
  import opened JsValues

  /** One entry of the `fields.field` collection. */
  datatype FieldPair = FieldPair(fieldName: string, fieldValue: Value)

  /** Some pair is named `k`. */
  predicate Named(ps: seq<FieldPair>, k: string)
  {
    exists i :: 0 <= i < |ps| && ps[i].fieldName == k
  }

  /** The value of the last pair named `k`: the reference definition of
      "the last write wins". */
  function LastValue(ps: seq<FieldPair>, k: string): (r: Option<Value>)
    ensures r.None? <==> !Named(ps, k)
    ensures r.Some? ==> exists i :: 0 <= i < |ps| && ps[i] == FieldPair(k, r.value)
                          && forall j :: i < j < |ps| ==> ps[j].fieldName != k
  {
    if |ps| == 0 then None
    else
      var last := ps[|ps| - 1];
      var init := ps[..|ps| - 1];
      if last.fieldName == k then Some(last.fieldValue)
      else
        var r := LastValue(init, k);
        NamedInit(ps, k, false);
        if r.Some? then LastWitness(ps, init, k, r.value, false); r else r
  }

  /** Dropping a last pair that does not count for `k` keeps `k` named. */
  lemma NamedInit(ps: seq<FieldPair>, k: string, sendableOnly: bool)
    requires |ps| > 0
    requires ps[|ps| - 1].fieldName != k || (sendableOnly && !Sendable(ps[|ps| - 1].fieldValue))
    ensures !sendableOnly ==> (Named(ps, k) <==> Named(ps[..|ps| - 1], k))
    ensures sendableOnly ==> (NamedSendable(ps, k) <==> NamedSendable(ps[..|ps| - 1], k))
  {
    var init := ps[..|ps| - 1];
    assert forall i :: 0 <= i < |init| ==> init[i] == ps[i];
  }

  /** A pair that was last for `k` in `ps[..|ps| - 1]` stays last in `ps`
      when the dropped pair does not count for `k`. */
  lemma LastWitness(ps: seq<FieldPair>, init: seq<FieldPair>, k: string, v: Value, sendableOnly: bool)
    requires |ps| > 0 && init == ps[..|ps| - 1]
    requires ps[|ps| - 1].fieldName != k || (sendableOnly && !Sendable(ps[|ps| - 1].fieldValue))
    requires exists i :: 0 <= i < |init| && init[i] == FieldPair(k, v)
               && forall j :: i < j < |init| && init[j].fieldName == k ==> sendableOnly && !Sendable(init[j].fieldValue)
    ensures exists i :: 0 <= i < |ps| && ps[i] == FieldPair(k, v)
              && forall j :: i < j < |ps| && ps[j].fieldName == k ==> sendableOnly && !Sendable(ps[j].fieldValue)
  {
    var i :| 0 <= i < |init| && init[i] == FieldPair(k, v)
             && forall j :: i < j < |init| && init[j].fieldName == k ==> sendableOnly && !Sendable(init[j].fieldValue);
    assert ps[i] == init[i];
    forall j | i < j < |ps| && ps[j].fieldName == k
      ensures sendableOnly && !Sendable(ps[j].fieldValue)
    {
      if j < |init| {
        assert ps[j] == init[j];
      }
    }
  }

  /** `for (const f of ps) body[f.fieldName] = f.fieldValue`, starting from
      `{}`: every named property is present and holds the value of the last
      pair with that name. */
  function Assign(ps: seq<FieldPair>): (body: map<string, Value>)
    ensures forall k :: k in body <==> Named(ps, k)
    ensures forall k :: k in body ==> LastValue(ps, k) == Some(body[k])
  {
    if |ps| == 0 then map[]
    else
      var init := ps[..|ps| - 1];
      var last := ps[|ps| - 1];
      assert forall i :: 0 <= i < |init| ==> init[i] == ps[i];
      assert forall k :: Named(ps, k) <==> Named(init, k) || k == last.fieldName by {
        forall k | Named(ps, k) ensures Named(init, k) || k == last.fieldName {
          var i :| 0 <= i < |ps| && ps[i].fieldName == k;
          if i < |init| { assert init[i].fieldName == k; }
        }
      }
      Assign(init)[last.fieldName := last.fieldValue]
  }

  /** PATCH sends a value only when it is not `''`, `null` or `undefined`
      (strict comparisons: `0` and `false` are sent). */
  predicate Sendable(v: Value)
  {
    v != Str("") && v != Null && v != Undefined
  }

  /** The pairs PATCH keeps, in order. */
  function Kept(ps: seq<FieldPair>): (r: seq<FieldPair>)
    ensures |r| <= |ps|
    ensures forall i :: 0 <= i < |r| ==> Sendable(r[i].fieldValue)
  {
    if |ps| == 0 then []
    else
      var rest := Kept(ps[1..]);
      if Sendable(ps[0].fieldValue) then [ps[0]] + rest else rest
  }

  /** Filtering works piecewise, so the kept pairs keep their input order. */
  lemma {:induction false} KeptAppend(a: seq<FieldPair>, b: seq<FieldPair>)
    ensures Kept(a + b) == Kept(a) + Kept(b)
    decreases |a|
  {
    if |a| == 0 {
      assert a + b == b;
    } else {
      assert (a + b)[0] == a[0] && (a + b)[1..] == a[1..] + b;
      KeptAppend(a[1..], b);
    }
  }

  /** A single pair is kept exactly when its value is sendable. */
  lemma KeptOne(p: FieldPair)
    ensures Kept([p]) == (if Sendable(p.fieldValue) then [p] else [])
  {
    assert [p][1..] == [];
  }

  /** The value of the last pair named `k` whose value is sendable: the
      reference definition of what PATCH sends for `k`. */
  function LastSendable(ps: seq<FieldPair>, k: string): (r: Option<Value>)
    ensures r.None? <==> !NamedSendable(ps, k)
    ensures r.Some? ==> Sendable(r.value)
    ensures r.Some? ==> exists i :: 0 <= i < |ps| && ps[i] == FieldPair(k, r.value)
                          && forall j :: i < j < |ps| && ps[j].fieldName == k ==> !Sendable(ps[j].fieldValue)
  {
    if |ps| == 0 then None
    else
      var last := ps[|ps| - 1];
      var init := ps[..|ps| - 1];
      if last.fieldName == k && Sendable(last.fieldValue) then Some(last.fieldValue)
      else
        var r := LastSendable(init, k);
        NamedInit(ps, k, true);
        if r.Some? then LastWitness(ps, init, k, r.value, true); r else r
  }

  /** The last value among the kept pairs is the last sendable value among
      all pairs. */
  lemma {:induction false} KeptLastValue(ps: seq<FieldPair>, k: string)
    ensures LastValue(Kept(ps), k) == LastSendable(ps, k)
    decreases |ps|
  {
    if |ps| > 0 {
      var last := ps[|ps| - 1];
      var init := ps[..|ps| - 1];
      assert ps == init + [last];
      KeptAppend(init, [last]);
      KeptOne(last);
      KeptLastValue(init, k);
      var ki := Kept(init);
      if Sendable(last.fieldValue) {
        var kp := ki + [last];
        assert Kept(ps) == kp;
        assert kp[|kp| - 1] == last && kp[..|kp| - 1] == ki;
      } else {
        assert Kept(ps) == ki + [];
        assert ki + [] == ki;
      }
    }
  }

  /** The POST body built from the pairs; an absent `fields.field` gives `{}`. */
  function PostFields(fields: Option<seq<FieldPair>>): (body: map<string, Value>)
    ensures fields.None? ==> body == map[]
    ensures fields.Some? ==> body == Assign(fields.value)
  {
    match fields
    case None => map[]
    case Some(ps) => Assign(ps)
  }

  /** The PATCH body built from the pairs, skipping empty values. */
  function PatchFields(fields: Option<seq<FieldPair>>): (body: map<string, Value>)
    ensures forall k :: k in body ==> Sendable(body[k])
    ensures fields.None? ==> body == map[]
  {
    match fields
    case None => map[]
    case Some(ps) =>
      var b := Assign(Kept(ps));
      forall k | k in b ensures Sendable(b[k]) {
        LastValueSendable(Kept(ps), k);
      }
      b
  }

  /** The last value among pairs that are all sendable is sendable. */
  lemma LastValueSendable(ps: seq<FieldPair>, k: string)
    requires forall i :: 0 <= i < |ps| ==> Sendable(ps[i].fieldValue)
    ensures LastValue(ps, k).Some? ==> Sendable(LastValue(ps, k).value)
  {
  }

  /** The body of POST or PATCH: with `useBody` the custom body, unchanged;
      otherwise the object built from the pairs. */
  function Body(useBody: bool, custom: Value, fields: Option<seq<FieldPair>>, skipEmpty: bool): (r: Value)
    ensures useBody ==> r == custom
    ensures !useBody ==> r.Obj?
    ensures !useBody && !skipEmpty ==> r.fields == PostFields(fields)
    ensures !useBody && skipEmpty ==> r.fields == PatchFields(fields)
  {
    if useBody then custom
    else if skipEmpty then Obj(PatchFields(fields))
    else Obj(PostFields(fields))
  }

  /** Some pair named `k` has a sendable value. */
  predicate NamedSendable(ps: seq<FieldPair>, k: string)
  {
    exists i :: 0 <= i < |ps| && ps[i].fieldName == k && Sendable(ps[i].fieldValue)
  }

  lemma NamedCons(p: FieldPair, rest: seq<FieldPair>, k: string)
    ensures Named([p] + rest, k) <==> p.fieldName == k || Named(rest, k)
    ensures NamedSendable([p] + rest, k)
            <==> (p.fieldName == k && Sendable(p.fieldValue)) || NamedSendable(rest, k)
  {
    var ps := [p] + rest;
    assert forall i :: 0 <= i < |rest| ==> ps[i + 1] == rest[i];
    if Named(ps, k) && p.fieldName != k {
      var i :| 0 <= i < |ps| && ps[i].fieldName == k;
      assert rest[i - 1] == ps[i];
    }
    if NamedSendable(ps, k) && !(p.fieldName == k && Sendable(p.fieldValue)) {
      var i :| 0 <= i < |ps| && ps[i].fieldName == k && Sendable(ps[i].fieldValue);
      assert rest[i - 1] == ps[i];
    }
    assert ps[0] == p;
  }

  /** A name survives PATCH's filter exactly when some pair with that name
      has a sendable value. */
  lemma {:induction false} KeptMembers(ps: seq<FieldPair>, k: string)
    ensures Named(Kept(ps), k) <==> NamedSendable(ps, k)
    decreases |ps|
  {
    if |ps| > 0 {
      KeptMembers(ps[1..], k);
      var rest := Kept(ps[1..]);
      assert ps == [ps[0]] + ps[1..];
      NamedCons(ps[0], ps[1..], k);
      if Sendable(ps[0].fieldValue) {
        NamedCons(ps[0], rest, k);
      }
    }
  }

  /** PATCH sends property `k` exactly when some pair named `k` has a
      sendable value, and then sends the value of the last such pair. */
  lemma PatchFieldsSpec(ps: seq<FieldPair>, k: string)
    ensures var b := PatchFields(Some(ps));
      && (k in b <==> NamedSendable(ps, k))
      && (k in b ==> LastValue(Kept(ps), k) == Some(b[k]))
  {
    KeptMembers(ps, k);
  }

  /** The value PATCH sends for `k` is the last sendable one: that of a pair
      named `k` after which no pair named `k` has a sendable value. */
  lemma PatchFieldsLastPair(ps: seq<FieldPair>, k: string)
    ensures var b := PatchFields(Some(ps));
      && (k in b ==> LastSendable(ps, k) == Some(b[k]))
      && (k in b ==> exists i :: 0 <= i < |ps| && ps[i] == FieldPair(k, b[k])
                       && forall j :: i < j < |ps| && ps[j].fieldName == k ==> !Sendable(ps[j].fieldValue))
  {
    PatchFieldsSpec(ps, k);
    KeptLastValue(ps, k);
  }

  /** The request body the repository's own PATCH test expects: `Name` is
      sent, the empty `Email` is not. */
  lemma PatchExample()
    ensures PatchFields(Some([FieldPair("Name", Str("John Doe")), FieldPair("Email", Str(""))]))
            == map["Name" := Str("John Doe")]
  {
    var ps := [FieldPair("Name", Str("John Doe")), FieldPair("Email", Str(""))];
    assert Kept(ps[1..]) == [];
    assert Kept(ps) == [FieldPair("Name", Str("John Doe"))];
  }
}
