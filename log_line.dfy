/**
 * The per-line part of `parseLog` (pages/index.tsx:42-63): split a log line
 * into tab-separated `name:value` fields, check that every field has a
 * colon, that `method`, `uri` and `uid` are present, and classify the
 * request by the first matching endpoint. Each line has exactly one
 * outcome: an accepted visit or one error.
 */
module LogLine {

  import opened Wrappers
  import opened JsString
  import opened PathPattern
  import opened Endpoints

  /** The three per-line errors, each with the 1-based line number and the raw line. */
  datatype LogError =
    | FieldWithoutColon(line: nat, raw: string)
    | MissingRequiredField(line: nat, raw: string)
    | NoMatchingEndpoint(line: nat, raw: string)

  /** An accepted line: the client `uid` and the name of the endpoint its request matched. */
  datatype Visit = Visit(uid: string, endpointName: string)

  datatype Outcome = Accepted(visit: Visit) | Rejected(error: LogError)

  /** `f.split(':', 2)` when that has two elements: the name is the text
      before the first colon, the value the text between the first and the
      second colon (or the end of the field). */
  function SplitField(f: string): (r: Option<(string, string)>)
    ensures r.None? <==> ':' !in f
    ensures r.Some? ==>
      var name := r.value.0; var value := r.value.1; var k := |name| + 1 + |value|;
      && ':' !in name && ':' !in value
      && k <= |f| && f[..k] == name + [':'] + value
      && (k == |f| || f[k] == ':')
  {
    var sep := Split(f, ':');
    if |sep| < 2 then None
    else
      SplitFieldShape(f);
      Some((sep[0], sep[1]))
  }

  lemma SplitFieldShape(f: string)
    requires |Split(f, ':')| >= 2
    ensures var sep := Split(f, ':'); var k := |sep[0]| + 1 + |sep[1]|;
      && k <= |f| && f[..k] == sep[0] + [':'] + sep[1]
      && (k == |f| || f[k] == ':')
  {
    var sep := Split(f, ':');
    SplitJoinsBack(f, ':');
    JoinHead(sep[0], sep[1..], ':');
    var head := sep[0] + [':'] + sep[1];
    if |sep| > 2 {
      assert sep[1..] == [sep[1]] + sep[2..];
      JoinHead(sep[1], sep[2..], ':');
      assert f == head + ([':'] + Join(sep[2..], ':'));
    } else {
      assert f == head;
    }
  }

  /** `fields.map(f => f.split(':', 2))`, or None when some field has no colon
      (`assocArr.includes(null)`). */
  function FieldPairs(fs: seq<string>): (r: Option<seq<(string, string)>>)
    ensures r.None? <==> exists i :: 0 <= i < |fs| && ':' !in fs[i]
    ensures r.Some? ==> |r.value| == |fs| && forall i :: 0 <= i < |fs| ==> SplitField(fs[i]) == Some(r.value[i])
  {
    if fs == [] then Some([])
    else
      var head := SplitField(fs[0]);
      var rest := FieldPairs(fs[1..]);
      assert forall i :: 1 <= i < |fs| ==> fs[i] == fs[1..][i - 1];
      if head.None? || rest.None? then None
      else Some([head.value] + rest.value)
  }

  /** The fields of line `l`, split on tabs. */
  function ParseFields(l: string): Option<seq<(string, string)>>
  {
    FieldPairs(Split(l, '\t'))
  }

  /** `new Map(pairs)`: later pairs overwrite earlier ones with the same name. */
  function FieldMap(pairs: seq<(string, string)>): map<string, string>
  {
    if pairs == [] then map[]
    else FieldMap(pairs[..|pairs| - 1])[pairs[|pairs| - 1].0 := pairs[|pairs| - 1].1]
  }

  /** The map has exactly the names of the pairs. */
  lemma {:induction false} FieldMapKeys(pairs: seq<(string, string)>)
    ensures forall k :: k in FieldMap(pairs) <==> exists j :: 0 <= j < |pairs| && pairs[j].0 == k
  {
    if pairs != [] {
      var init := pairs[..|pairs| - 1];
      FieldMapKeys(init);
      forall k ensures k in FieldMap(pairs) <==> exists j :: 0 <= j < |pairs| && pairs[j].0 == k {
        if k in FieldMap(init) {
          var j :| 0 <= j < |init| && init[j].0 == k;
          assert pairs[j].0 == k;
        }
        if j :| 0 <= j < |pairs| && pairs[j].0 == k {
          if j < |init| {
            assert init[j].0 == k;
          }
        }
      }
    }
  }

  /** A name's value is the one of its last pair. */
  lemma {:induction false} FieldMapLastWins(pairs: seq<(string, string)>, j: nat)
    requires j < |pairs|
    requires forall j' :: j < j' < |pairs| ==> pairs[j'].0 != pairs[j].0
    ensures pairs[j].0 in FieldMap(pairs) && FieldMap(pairs)[pairs[j].0] == pairs[j].1
  {
    if j < |pairs| - 1 {
      var init := pairs[..|pairs| - 1];
      assert forall j' :: j < j' < |init| ==> init[j'] == pairs[j'];
      FieldMapLastWins(init, j);
      assert init[j] == pairs[j];
    }
  }

  predicate HasRequired(m: map<string, string>)
  {
    "method" in m && "uri" in m && "uid" in m
  }

  /** `e.method === verb && e.regexp.exec(uri)`. */
  predicate Fits(e: Endpoint, verb: string, uri: string)
  {
    e.httpMethod == verb && Accepts(e.path, uri)
  }

  /** Endpoint `k` fits and no earlier one does. */
  predicate IsFirstMatch(eps: seq<Endpoint>, k: nat, verb: string, uri: string)
  {
    k < |eps| && Fits(eps[k], verb, uri) && forall j :: 0 <= j < k ==> !Fits(eps[j], verb, uri)
  }

  /** `endpoints.find(...)`, as the index of the endpoint found. */
  function FindEndpoint(eps: seq<Endpoint>, verb: string, uri: string): (r: Option<nat>)
    ensures r.Some? ==> IsFirstMatch(eps, r.value, verb, uri)
    ensures r.None? ==> forall j :: 0 <= j < |eps| ==> !Fits(eps[j], verb, uri)
  {
    if eps == [] then None
    else if Fits(eps[0], verb, uri) then Some(0)
    else
      var rest := FindEndpoint(eps[1..], verb, uri);
      assert forall j :: 1 <= j < |eps| ==> eps[j] == eps[1..][j - 1];
      if rest.None? then None else Some(rest.value + 1)
  }

  /** The outcome of line number `n` (1-based) with text `l`. */
  function ClassifyLine(n: nat, l: string, eps: seq<Endpoint>): Outcome
  {
    match ParseFields(l)
    case None => Rejected(FieldWithoutColon(n, l))
    case Some(pairs) =>
      var m := FieldMap(pairs);
      if !HasRequired(m) then Rejected(MissingRequiredField(n, l))
      else
        match FindEndpoint(eps, m["method"], m["uri"])
        case None => Rejected(NoMatchingEndpoint(n, l))
        case Some(k) => Accepted(Visit(m["uid"], eps[k].name))
  }

  /** Every error names the line's number and text. */
  lemma ClassifyLineNames(n: nat, l: string, eps: seq<Endpoint>)
    ensures ClassifyLine(n, l, eps).Rejected? ==>
      ClassifyLine(n, l, eps).error.line == n && ClassifyLine(n, l, eps).error.raw == l
  {
  }

  /** The first check: a field without a colon rejects the line. */
  lemma ClassifyLineColon(n: nat, l: string, eps: seq<Endpoint>)
    ensures ClassifyLine(n, l, eps) == Rejected(FieldWithoutColon(n, l)) <==>
      exists i :: 0 <= i < |Split(l, '\t')| && ':' !in Split(l, '\t')[i]
  {
    var fs := Split(l, '\t');
    assert ParseFields(l) == FieldPairs(fs);
    if FieldPairs(fs).Some? {
      assert !exists i :: 0 <= i < |fs| && ':' !in fs[i];
      var m := FieldMap(FieldPairs(fs).value);
      assert ClassifyLine(n, l, eps) != Rejected(FieldWithoutColon(n, l)) by {
        if HasRequired(m) {
          match FindEndpoint(eps, m["method"], m["uri"]) {
            case None =>
            case Some(k) =>
          }
        }
      }
    } else {
      var i :| 0 <= i < |fs| && ':' !in fs[i];
      assert ClassifyLine(n, l, eps) == Rejected(FieldWithoutColon(n, l));
      assert 0 <= i < |Split(l, '\t')| && ':' !in Split(l, '\t')[i];
    }
  }

  /** The second check, once every field has a colon: `method`, `uri` and `uid` must all be there. */
  lemma ClassifyLineRequired(n: nat, l: string, eps: seq<Endpoint>)
    requires ParseFields(l).Some?
    ensures ClassifyLine(n, l, eps) == Rejected(MissingRequiredField(n, l)) <==>
      !HasRequired(FieldMap(ParseFields(l).value))
  {
  }

  /** The third check: with all three fields present, the line is rejected
      exactly when no endpoint has its method and accepts its uri; otherwise
      its visit is by `uid` to the first endpoint that does. */
  lemma ClassifyLineMatch(n: nat, l: string, eps: seq<Endpoint>)
    ensures ParseFields(l).Some? && HasRequired(FieldMap(ParseFields(l).value)) ==>
      var m := FieldMap(ParseFields(l).value); var o := ClassifyLine(n, l, eps);
      && (o == Rejected(NoMatchingEndpoint(n, l)) <==>
            forall j :: 0 <= j < |eps| ==> !Fits(eps[j], m["method"], m["uri"]))
      && (o.Accepted? ==>
            o.visit.uid == m["uid"] &&
            exists k :: 0 <= k < |eps| && IsFirstMatch(eps, k, m["method"], m["uri"]) && o.visit.endpointName == eps[k].name)
  {
    if ParseFields(l).Some? && HasRequired(FieldMap(ParseFields(l).value)) {
      var m := FieldMap(ParseFields(l).value);
      var r := FindEndpoint(eps, m["method"], m["uri"]);
      if r.Some? {
        assert ClassifyLine(n, l, eps) == Accepted(Visit(m["uid"], eps[r.value].name));
      }
    }
  }

  /** The outcome of every line, numbered from 1. */
  function Outcomes(ls: seq<string>, eps: seq<Endpoint>): (os: seq<Outcome>)
    ensures |os| == |ls|
  {
    if ls == [] then []
    else Outcomes(ls[..|ls| - 1], eps) + [ClassifyLine(|ls|, ls[|ls| - 1], eps)]
  }

  /** Line `i` (0-based) has the outcome of classifying it as line number `i + 1`. */
  lemma {:induction false} OutcomesAt(ls: seq<string>, eps: seq<Endpoint>, i: nat)
    requires i < |ls|
    ensures Outcomes(ls, eps)[i] == ClassifyLine(i + 1, ls[i], eps)
  {
    var init := ls[..|ls| - 1];
    if i < |init| {
      OutcomesAt(init, eps, i);
      assert init[i] == ls[i];
    }
  }

  /** One more line adds its outcome at the end. */
  lemma OutcomesStep(ls: seq<string>, eps: seq<Endpoint>, i: nat)
    requires i < |ls|
    ensures Outcomes(ls[..i + 1], eps) == Outcomes(ls[..i], eps) + [ClassifyLine(i + 1, ls[i], eps)]
  {
    assert ls[..i + 1][..i] == ls[..i];
  }

  /** The text `errors.push` records for each kind (pages/index.tsx:48, 56, 61):
      `LineError` states its shape. */
  function LogMessage(e: LogError): string
  {
    match e
    case FieldWithoutColon(n, raw) => LineError(n, "some field does not have a colon", raw)
    case MissingRequiredField(n, raw) => LineError(n, "either method, uri, or uid does not exist", raw)
    case NoMatchingEndpoint(n, raw) => LineError(n, "uri does not have matching endpoint", raw)
  }
}
