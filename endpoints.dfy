/**
 * `parseEndpoints` (pages/index.tsx:12-28): every line of
 * `text.trimEnd().split('\n')` is either an endpoint `METHOD PATH` or one
 * column-count error, in line order.
 */
module Endpoints {

  import opened JsString
  import opened PathPattern

  /** An endpoint definition: `name` is the whole definition line, `httpMethod` the
      source's `method` field, `path` the compiled matcher. */
  datatype Endpoint = Endpoint(name: string, httpMethod: string, path: seq<Token>)

  /** `Line <line>: number of column is not 2: "<raw>"`. */
  datatype EndpointError = ColumnCountError(line: nat, raw: string)

  /** What the `flatMap` callback makes of one line: an endpoint or an error. */
  datatype LineResult = Defined(endpoint: Endpoint) | Malformed(error: EndpointError)

  /** Line number `n` (1-based) with text `l`: `l.split(' ')` must give exactly two columns. */
  function ParseEndpointLine(n: nat, l: string): LineResult
  {
    var arr := Split(l, ' ');
    if |arr| != 2 then Malformed(ColumnCountError(n, l))
    else Defined(Endpoint(l, arr[0], Compile(arr[1])))
  }

  /** A line yields an endpoint exactly when it holds one space; the
      endpoint is named by the whole line, its method is the text before the
      space and its matcher is compiled from the text after it. Otherwise the
      error carries the line's number and text. */
  lemma ParseEndpointLineShape(n: nat, l: string)
    ensures ParseEndpointLine(n, l).Defined? <==> Count(l, ' ') == 1
    ensures ParseEndpointLine(n, l).Malformed? ==> ParseEndpointLine(n, l).error == ColumnCountError(n, l)
    ensures ParseEndpointLine(n, l).Defined? ==>
      var e := ParseEndpointLine(n, l).endpoint;
      var k := |e.httpMethod|;
      && k < |l| && l[k] == ' ' && l[..k] == e.httpMethod
      && ' ' !in l[..k] && ' ' !in l[k + 1..]
      && e.name == l
      && e.path == Compile(l[k + 1..])
  {
    var arr := Split(l, ' ');
    if |arr| == 2 {
      SplitJoinsBack(l, ' ');
      JoinHead(arr[0], arr[1..], ' ');
      assert l == arr[0] + [' '] + arr[1];
      assert l[..|arr[0]|] == arr[0] && l[|arr[0]| + 1..] == arr[1];
    }
  }

  /** The flattening of the per-line results: endpoints and errors, each in order. */
  function Collect(rs: seq<LineResult>): (r: (seq<Endpoint>, seq<EndpointError>))
    ensures |r.0| + |r.1| == |rs|
  {
    if rs == [] then ([], [])
    else
      var rest := Collect(rs[1..]);
      match rs[0]
      case Defined(e) => ([e] + rest.0, rest.1)
      case Malformed(err) => (rest.0, [err] + rest.1)
  }

  /** Collecting consecutive blocks of lines concatenates their endpoints and their errors. */
  lemma {:induction false} CollectAppend(a: seq<LineResult>, b: seq<LineResult>)
    ensures Collect(a + b).0 == Collect(a).0 + Collect(b).0
    ensures Collect(a + b).1 == Collect(a).1 + Collect(b).1
  {
    if a == [] {
      assert a + b == b;
    } else {
      assert (a + b)[1..] == a[1..] + b;
      assert (a + b)[0] == a[0];
      CollectAppend(a[1..], b);
    }
  }

  /** The endpoints are exactly those of the `Defined` results. */
  lemma {:induction false} CollectEndpoints(rs: seq<LineResult>)
    ensures forall e :: e in Collect(rs).0 <==> exists i :: 0 <= i < |rs| && rs[i] == Defined(e)
  {
    if rs != [] {
      CollectEndpoints(rs[1..]);
      forall e ensures e in Collect(rs).0 <==> exists i :: 0 <= i < |rs| && rs[i] == Defined(e) {
        if e in Collect(rs[1..]).0 {
          var j :| 0 <= j < |rs[1..]| && rs[1..][j] == Defined(e);
          assert rs[j + 1] == Defined(e);
        }
        if i :| 0 <= i < |rs| && rs[i] == Defined(e) {
          if i > 0 {
            assert rs[1..][i - 1] == Defined(e);
          }
        }
      }
    }
  }

  /** The errors are exactly those of the `Malformed` results. */
  lemma {:induction false} CollectErrors(rs: seq<LineResult>)
    ensures forall err :: err in Collect(rs).1 <==> exists i :: 0 <= i < |rs| && rs[i] == Malformed(err)
  {
    if rs != [] {
      CollectErrors(rs[1..]);
      forall err ensures err in Collect(rs).1 <==> exists i :: 0 <= i < |rs| && rs[i] == Malformed(err) {
        if err in Collect(rs[1..]).1 {
          var j :| 0 <= j < |rs[1..]| && rs[1..][j] == Malformed(err);
          assert rs[j + 1] == Malformed(err);
        }
        if i :| 0 <= i < |rs| && rs[i] == Malformed(err) {
          if i > 0 {
            assert rs[1..][i - 1] == Malformed(err);
          }
        }
      }
    }
  }

  /** Errors come out in the order of their results: when later results carry
      larger line numbers, so do later errors. */
  lemma {:induction false} CollectErrorsOrdered(rs: seq<LineResult>)
    requires forall i, j :: 0 <= i < j < |rs| && rs[i].Malformed? && rs[j].Malformed? ==>
      rs[i].error.line < rs[j].error.line
    ensures forall a, b :: 0 <= a < b < |Collect(rs).1| ==> Collect(rs).1[a].line < Collect(rs).1[b].line
  {
    if rs != [] {
      var rest := rs[1..];
      assert forall i, j :: 0 <= i < j < |rest| && rest[i].Malformed? && rest[j].Malformed? ==>
        rest[i].error.line < rest[j].error.line by {
        forall i, j | 0 <= i < j < |rest| ensures rest[i] == rs[i + 1] && rest[j] == rs[j + 1] { }
      }
      CollectErrorsOrdered(rest);
      if rs[0].Malformed? {
        var errs := Collect(rs).1;
        var tail := Collect(rest).1;
        CollectErrors(rest);
        assert errs == [rs[0].error] + tail;
        forall a, b | 0 <= a < b < |errs| ensures errs[a].line < errs[b].line {
          assert errs[b] == tail[b - 1];
          if a > 0 {
            assert errs[a] == tail[a - 1];
          } else {
            var j :| 0 <= j < |rest| && rest[j] == Malformed(tail[b - 1]);
            assert rs[j + 1] == rest[j];
          }
        }
      }
    }
  }

  /** The per-line results of the lines `ls` (line numbers from 1). */
  function LineResults(ls: seq<string>): (rs: seq<LineResult>)
    ensures |rs| == |ls|
  {
    seq(|ls|, i requires 0 <= i < |ls| => ParseEndpointLine(i + 1, ls[i]))
  }

  /** The endpoints and errors of the lines `ls`. */
  function ParseLines(ls: seq<string>): (r: (seq<Endpoint>, seq<EndpointError>))
    ensures |r.0| + |r.1| == |ls|
  {
    Collect(LineResults(ls))
  }

  /** `parseEndpoints(text)`: the endpoints and the errors of the lines of `text`. */
  function ParseEndpoints(text: string): (r: (seq<Endpoint>, seq<EndpointError>))
    ensures |r.0| + |r.1| == |Lines(text)|
  {
    ParseLines(Lines(text))
  }

  /** An endpoint of the result is the endpoint of some line, and every line
      with exactly one space gives its endpoint. */
  lemma ParseLinesDefined(ls: seq<string>)
    ensures forall e :: e in ParseLines(ls).0 <==>
      exists i :: 0 <= i < |ls| && ParseEndpointLine(i + 1, ls[i]) == Defined(e)
  {
    var rs := LineResults(ls);
    CollectEndpoints(rs);
    assert forall i :: 0 <= i < |ls| ==> rs[i] == ParseEndpointLine(i + 1, ls[i]);
  }

  /** The errors are one per line without exactly one space, naming the
      line's 1-based number and its text. */
  lemma ParseLinesErrors(ls: seq<string>)
    ensures forall n: nat, raw :: ColumnCountError(n, raw) in ParseLines(ls).1 <==>
      1 <= n <= |ls| && ls[n - 1] == raw && Count(raw, ' ') != 1
  {
    forall n: nat, raw
      ensures ColumnCountError(n, raw) in ParseLines(ls).1 <==>
        1 <= n <= |ls| && ls[n - 1] == raw && Count(raw, ' ') != 1
    {
      ParseLinesErrorAt(ls, n, raw);
    }
  }

  lemma ParseLinesErrorAt(ls: seq<string>, n: nat, raw: string)
    ensures ColumnCountError(n, raw) in ParseLines(ls).1 <==>
      1 <= n <= |ls| && ls[n - 1] == raw && Count(raw, ' ') != 1
  {
    CollectErrors(LineResults(ls));
    if 1 <= n <= |ls| && ls[n - 1] == raw && Count(raw, ' ') != 1 {
      ParseLinesErrorFrom(ls, n, raw);
    }
    if ColumnCountError(n, raw) in ParseLines(ls).1 {
      ParseLinesErrorTo(ls, n, raw);
    }
  }

  lemma ParseLinesErrorFrom(ls: seq<string>, n: nat, raw: string)
    requires 1 <= n <= |ls| && ls[n - 1] == raw && Count(raw, ' ') != 1
    ensures LineResults(ls)[n - 1] == Malformed(ColumnCountError(n, raw))
  {
    ParseEndpointLineError(n, raw);
  }

  lemma ParseLinesErrorTo(ls: seq<string>, n: nat, raw: string)
    requires exists i :: 0 <= i < |ls| && LineResults(ls)[i] == Malformed(ColumnCountError(n, raw))
    ensures 1 <= n <= |ls| && ls[n - 1] == raw && Count(raw, ' ') != 1
  {
    var i :| 0 <= i < |ls| && LineResults(ls)[i] == Malformed(ColumnCountError(n, raw));
    ParseEndpointLineError(i + 1, ls[i]);
  }

  /** A line is malformed exactly when it does not hold one space, and its
      error names the line. */
  lemma ParseEndpointLineError(n: nat, l: string)
    ensures ParseEndpointLine(n, l).Malformed? <==> Count(l, ' ') != 1
    ensures ParseEndpointLine(n, l).Malformed? ==> ParseEndpointLine(n, l).error == ColumnCountError(n, l)
  {
  }

  /** The errors are in increasing line order. */
  lemma ParseLinesErrorsOrdered(ls: seq<string>)
    ensures forall a, b :: 0 <= a < b < |ParseLines(ls).1| ==> ParseLines(ls).1[a].line < ParseLines(ls).1[b].line
  {
    var rs := LineResults(ls);
    forall i | 0 <= i < |rs| && rs[i].Malformed? ensures rs[i].error.line == i + 1 {
      ParseEndpointLineShape(i + 1, ls[i]);
    }
    CollectErrorsOrdered(rs);
  }

  /** Splitting the definitions into two blocks of lines concatenates the
      endpoints and the errors of the blocks, so both keep line order. */
  lemma ParseLinesOrder(ls1: seq<string>, ls2: seq<string>)
    ensures var r2 := Collect(seq(|ls2|, i requires 0 <= i < |ls2| => ParseEndpointLine(|ls1| + i + 1, ls2[i])));
      && ParseLines(ls1 + ls2).0 == ParseLines(ls1).0 + r2.0
      && ParseLines(ls1 + ls2).1 == ParseLines(ls1).1 + r2.1
  {
    var rs := LineResults(ls1 + ls2);
    var r1 := LineResults(ls1);
    var r2 := seq(|ls2|, i requires 0 <= i < |ls2| => ParseEndpointLine(|ls1| + i + 1, ls2[i]));
    assert rs == r1 + r2;
    CollectAppend(r1, r2);
  }

  /** The error text template `Line ${n}: ${reason}: "${raw}"` shared by both
      parsers: the line number reads back from the digits after `Line `, and
      the text ends with the raw line in quotes. */
  function LineError(n: nat, reason: string, raw: string): (m: string)
    ensures |m| > 5 && m[..5] == "Line "
    ensures DecimalValue(DigitPrefix(m[5..])) == n
    ensures |m| > |raw| && m[|m| - |raw| - 1..] == raw + "\""
    ensures 5 + |Decimal(n)| <= |m| - |raw| - 1 && m[5 + |Decimal(n)|..|m| - |raw| - 1] == ": " + reason + ": \""
  {
    var mid := ": " + reason + ": \"";
    MessageShape("Line ", Decimal(n), mid, raw, "\"");
    MessageMiddle("Line ", Decimal(n), mid, raw + "\"");
    "Line " + (Decimal(n) + (mid + (raw + "\"")))
  }

  /** A message made of a prefix, a numeral, a text starting with a
      non-digit, the raw line and a closing text keeps each part in place. */
  lemma MessageShape(prefix: string, digits: string, mid: string, raw: string, close: string)
    requires forall i :: 0 <= i < |digits| ==> IsDigit(digits[i])
    requires |mid| > 0 && !IsDigit(mid[0])
    ensures var m := prefix + (digits + (mid + (raw + close)));
      && m[..|prefix|] == prefix
      && DigitPrefix(m[|prefix|..]) == digits
      && m[|m| - |raw| - |close|..] == raw + close
  {
    var tail := mid + (raw + close);
    var body := digits + tail;
    PrefixOfAppend(prefix, body);
    DigitPrefixStops(digits, tail);
    SuffixOfAppend(mid, raw + close, |raw| + |close|);
    SuffixOfAppend(digits, tail, |raw| + |close|);
    SuffixOfAppend(prefix, body, |raw| + |close|);
  }

  /** The text between the numeral and the quoted raw line is `mid`. */
  lemma MessageMiddle(prefix: string, digits: string, mid: string, rest: string)
    ensures var m := prefix + (digits + (mid + rest));
      m[|prefix| + |digits|..|m| - |rest|] == mid
  {
    var m := prefix + (digits + (mid + rest));
    var k := |prefix| + |digits|;
    forall i | 0 <= i < |mid| ensures m[k..|m| - |rest|][i] == mid[i] {
      assert m[k + i] == (digits + (mid + rest))[|digits| + i];
    }
  }

  /** `Line <n>: number of column is not 2: "<raw>"` (pages/index.tsx:17);
      `LineError` states its shape. */
  function EndpointMessage(e: EndpointError): string
  {
    LineError(e.line, "number of column is not 2", e.raw)
  }
}
