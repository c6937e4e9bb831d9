/**
 * The JavaScript string operations the parsers rely on: `trimEnd`,
 * `split` on a one-character separator, and the decimal rendering of a
 * non-negative integer in a template literal.
 */
module JsString {

  /** The characters `String.prototype.trimEnd` removes: ECMAScript's
      WhiteSpace (tab, vertical tab, form feed, space, no-break space,
      byte order mark and the Unicode space separators) and LineTerminator
      (line feed, carriage return, line and paragraph separator). */
  predicate IsTrimmable(c: char)
  {
    || c == '\t' || c == '\n' || c == '\U{B}' || c == '\U{C}' || c == '\r'
    || c == ' ' || c == '\U{A0}' || c == '\U{1680}'
    || ('\U{2000}' <= c <= '\U{200A}')
    || c == '\U{2028}' || c == '\U{2029}' || c == '\U{202F}' || c == '\U{205F}'
    || c == '\U{3000}' || c == '\U{FEFF}'
  }

  /** `s.trimEnd()`: the longest prefix of `s` that does not end in a trimmable character. */
  function TrimEnd(s: string): (r: string)
    ensures r <= s
    ensures forall i :: |r| <= i < |s| ==> IsTrimmable(s[i])
    ensures r == [] || !IsTrimmable(r[|r| - 1])
  {
    if s != [] && IsTrimmable(s[|s| - 1]) then TrimEnd(s[..|s| - 1]) else s
  }

  /** The three properties of TrimEnd determine its result. */
  lemma TrimEndUnique(s: string, r: string)
    requires r <= s
    requires forall i :: |r| <= i < |s| ==> IsTrimmable(s[i])
    requires r == [] || !IsTrimmable(r[|r| - 1])
    ensures r == TrimEnd(s)
  {
  }

  /** Number of occurrences of `c` in `s`. */
  function Count(s: string, c: char): (n: nat)
    ensures n == 0 <==> c !in s
    ensures n <= |s|
  {
    if s == [] then 0 else (if s[0] == c then 1 else 0) + Count(s[1..], c)
  }

  /** `parts.join(sep)`. */
  function Join(parts: seq<string>, sep: char): string
  {
    if |parts| == 0 then ""
    else if |parts| == 1 then parts[0]
    else parts[0] + [sep] + Join(parts[1..], sep)
  }

  /** Joining the first two parts first gives the same string. */
  lemma JoinHead(p: string, ps: seq<string>, sep: char)
    requires |ps| > 0
    ensures Join([p] + ps, sep) == p + [sep] + Join(ps, sep)
  {
    assert ([p] + ps)[1..] == ps;
  }

  /** `s.split(sep)` for a one-character separator: the maximal
      separator-free pieces between occurrences of `sep`; the empty string
      gives the single piece `""`. */
  function Split(s: string, sep: char): (parts: seq<string>)
    ensures |parts| == Count(s, sep) + 1
    ensures forall i :: 0 <= i < |parts| ==> sep !in parts[i]
  {
    if s == [] then [""]
    else
      var rest := Split(s[1..], sep);
      if s[0] == sep then [""] + rest
      else [[s[0]] + rest[0]] + rest[1..]
  }

  /** Joining the pieces with the separator gives the string back. */
  lemma {:induction false} SplitJoinsBack(s: string, sep: char)
    ensures Join(Split(s, sep), sep) == s
  {
    if s != [] {
      SplitJoinsBack(s[1..], sep);
      var rest := Split(s[1..], sep);
      if s[0] == sep {
        JoinHead("", rest, sep);
      } else {
        JoinExtendFirst(s[0], rest, sep);
      }
      assert s == [s[0]] + s[1..];
    }
  }

  /** Putting `c` in front of the first part puts it in front of the join. */
  lemma JoinExtendFirst(c: char, parts: seq<string>, sep: char)
    requires |parts| > 0
    ensures Join([[c] + parts[0]] + parts[1..], sep) == [c] + Join(parts, sep)
  {
    if |parts| > 1 {
      JoinHead(parts[0], parts[1..], sep);
      JoinHead([c] + parts[0], parts[1..], sep);
      assert [parts[0]] + parts[1..] == parts;
    }
  }

  /** Splitting a joined list of separator-free pieces gives the pieces back. */
  lemma {:induction false} SplitJoin(parts: seq<string>, sep: char)
    requires |parts| > 0
    requires forall i :: 0 <= i < |parts| ==> sep !in parts[i]
    ensures Split(Join(parts, sep), sep) == parts
  {
    if |parts| == 1 {
      SplitNoSeparator(parts[0], sep);
    } else {
      SplitJoin(parts[1..], sep);
      JoinHead(parts[0], parts[1..], sep);
      assert [parts[0]] + parts[1..] == parts;
      SplitPrepend(parts[0], Join(parts[1..], sep), sep);
    }
  }

  lemma {:induction false} SplitNoSeparator(s: string, sep: char)
    requires sep !in s
    ensures Split(s, sep) == [s]
  {
    if s != [] {
      SplitNoSeparator(s[1..], sep);
      assert [s[0]] + s[1..] == s;
    }
  }

  lemma {:induction false} SplitPrepend(p: string, rest: string, sep: char)
    requires sep !in p
    ensures Split(p + [sep] + rest, sep) == [p] + Split(rest, sep)
  {
    var s := p + [sep] + rest;
    if p == [] {
      assert s[0] == sep && s[1..] == rest;
    } else {
      assert s[0] == p[0] && s[1..] == p[1..] + [sep] + rest;
      SplitPrepend(p[1..], rest, sep);
      var r := Split(s[1..], sep);
      assert r[0] == p[1..] && r[1..] == Split(rest, sep);
      assert Split(s, sep) == [[p[0]] + r[0]] + r[1..];
      assert [p[0]] + p[1..] == p;
    }
  }

  /** `text.trimEnd().split('\n')`: the lines both parsers iterate over. */
  function Lines(text: string): (ls: seq<string>)
    ensures |ls| > 0
    ensures forall i :: 0 <= i < |ls| ==> '\n' !in ls[i]
    ensures Join(ls, '\n') == TrimEnd(text)
  {
    SplitJoinsBack(TrimEnd(text), '\n');
    Split(TrimEnd(text), '\n')
  }

  predicate IsDigit(c: char)
  {
    '0' <= c <= '9'
  }

  function DigitChar(d: nat): (c: char)
    requires d < 10
    ensures IsDigit(c) && c as int - '0' as int == d
  {
    ('0' as int + d) as char
  }

  /** The number written by a string of decimal digits (non-digits count as 0). */
  function DecimalValue(s: string): nat
  {
    if s == [] then 0
    else
      var c := s[|s| - 1];
      10 * DecimalValue(s[..|s| - 1]) + (if IsDigit(c) then c as int - '0' as int else 0)
  }

  /** `${n}` for a non-negative integer `n`: its shortest decimal numeral. */
  function Decimal(n: nat): (s: string)
    ensures |s| > 0 && forall i :: 0 <= i < |s| ==> IsDigit(s[i])
    ensures DecimalValue(s) == n
    ensures s[0] == '0' ==> n == 0
    ensures |s| > 1 ==> s[0] != '0'
  {
    if n < 10 then [DigitChar(n)]
    else
      var s := Decimal(n / 10) + [DigitChar(n % 10)];
      assert s[..|s| - 1] == Decimal(n / 10);
      s
  }

  /** The longest prefix of `s` made of decimal digits. */
  function DigitPrefix(s: string): (r: string)
    ensures r <= s
    ensures forall i :: 0 <= i < |r| ==> IsDigit(r[i])
    ensures |r| == |s| || !IsDigit(s[|r|])
  {
    if s != [] && IsDigit(s[0]) then [s[0]] + DigitPrefix(s[1..]) else []
  }

  /** `a + b` splits back into `a` and `b`. */
  lemma PrefixOfAppend(a: string, b: string)
    ensures (a + b)[..|a|] == a && (a + b)[|a|..] == b
  {
  }

  /** The last `k` characters of `a + b` are those of `b`. */
  lemma SuffixOfAppend(a: string, b: string, k: nat)
    requires k <= |b|
    ensures (a + b)[|a| + |b| - k..] == b[|b| - k..]
  {
    var x := (a + b)[|a| + |b| - k..];
    var y := b[|b| - k..];
    assert |x| == |y|;
    forall i | 0 <= i < k ensures x[i] == y[i] {
      assert x[i] == (a + b)[|a| + |b| - k + i];
    }
  }

  /** A digit string followed by a non-digit is read back exactly. */
  lemma {:induction false} DigitPrefixStops(a: string, b: string)
    requires forall i :: 0 <= i < |a| ==> IsDigit(a[i])
    requires b == [] || !IsDigit(b[0])
    ensures DigitPrefix(a + b) == a
  {
    if a != [] {
      assert (a + b)[1..] == a[1..] + b;
      DigitPrefixStops(a[1..], b);
      assert [a[0]] + a[1..] == a;
    }
  }
}
