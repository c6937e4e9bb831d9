/**
 * The matcher built for an endpoint's path pattern (pages/index.tsx:24):
 * `RegExp('^' + path.replaceAll(/:\w+/g, '\\w+') + '(.json)?$')`.
 *
 * The pattern is compiled to a token list (a literal character or a
 * one-or-more word-character wildcard, one per `:name` placeholder), and
 * matching is a recursive "there is a way to split the input" predicate.
 * Literal characters of the pattern are taken to be free of regular
 * expression metacharacters, so each matches itself.
 */
module PathPattern {

  /** `\w`: an ASCII letter, digit or underscore. */
  predicate IsWordChar(c: char)
  {
    ('a' <= c <= 'z') || ('A' <= c <= 'Z') || ('0' <= c <= '9') || c == '_'
  }

  /** The characters `.` does not match (no `s` flag). */
  predicate IsLineTerminator(c: char)
  {
    c == '\n' || c == '\r' || c == '\U{2028}' || c == '\U{2029}'
  }

  /** A non-empty run of word characters: what one `\w+` consumes. */
  predicate IsWordRun(w: string)
  {
    |w| > 0 && forall i :: 0 <= i < |w| ==> IsWordChar(w[i])
  }

  datatype Token = Lit(c: char) | Wild

  /** Length of the leading run of word characters (greedy `\w+`). */
  function WordRun(s: string): (n: nat)
    ensures n <= |s|
    ensures forall i :: 0 <= i < n ==> IsWordChar(s[i])
    ensures n == |s| || !IsWordChar(s[n])
  {
    if s != [] && IsWordChar(s[0]) then 1 + WordRun(s[1..]) else 0
  }

  /** `/:\w+/` matches at the start of `p`. */
  predicate StartsPlaceholder(p: string)
  {
    |p| >= 2 && p[0] == ':' && IsWordChar(p[1])
  }

  /** What follows the placeholder that starts `p`. */
  function AfterPlaceholder(p: string): string
    requires StartsPlaceholder(p)
  {
    p[1 + WordRun(p[1..])..]
  }

  /** No word character directly follows a wildcard or a literal colon:
      the shape left by a greedy, left-to-right `replaceAll(/:\w+/g, …)`. */
  predicate WellFormed(t: seq<Token>)
  {
    forall i :: 0 < i < |t| && t[i].Lit? && IsWordChar(t[i].c) ==> t[i - 1] != Wild && t[i - 1] != Lit(':')
  }

  /** `p.replaceAll(/:\w+/g, '\\w+')`, read as tokens. */
  function Compile(p: string): (t: seq<Token>)
    ensures WellFormed(t)
    ensures p == [] <==> t == []
    ensures p != [] ==> (t[0] == Wild <==> StartsPlaceholder(p))
    ensures p != [] && t[0].Lit? ==> t[0].c == p[0]
    decreases |p|
  {
    if p == [] then []
    else if StartsPlaceholder(p) then
      var rest := AfterPlaceholder(p);
      assert rest == [] || !IsWordChar(rest[0]);
      [Wild] + Compile(rest)
    else
      assert p[0] == ':' ==> |p| == 1 || !IsWordChar(p[1]);
      [Lit(p[0])] + Compile(p[1..])
  }

  /** The placeholder names, without their colons, in pattern order. */
  function Placeholders(p: string): (names: seq<string>)
    ensures forall i :: 0 <= i < |names| ==> IsWordRun(names[i])
    decreases |p|
  {
    if p == [] then []
    else if StartsPlaceholder(p) then [p[1..1 + WordRun(p[1..])]] + Placeholders(AfterPlaceholder(p))
    else Placeholders(p[1..])
  }

  function WildCount(t: seq<Token>): nat
  {
    if t == [] then 0 else (if t[0] == Wild then 1 else 0) + WildCount(t[1..])
  }

  /** The string obtained by putting `ws[i]` in place of the i-th wildcard. */
  function Fill(t: seq<Token>, ws: seq<string>): string
    requires |ws| == WildCount(t)
  {
    if t == [] then ""
    else match t[0]
      case Lit(c) => [c] + Fill(t[1..], ws)
      case Wild => ws[0] + Fill(t[1..], ws[1..])
  }

  /** Each name with its leading colon, as it stands in the pattern. */
  function WithColons(names: seq<string>): (ws: seq<string>)
    ensures |ws| == |names|
    ensures forall i :: 0 <= i < |ws| ==> ws[i] == [':'] + names[i]
  {
    if names == [] then [] else [[':'] + names[0]] + WithColons(names[1..])
  }

  /** A choice of one word run per wildcard. */
  predicate WordFills(t: seq<Token>, ws: seq<string>)
  {
    |ws| == WildCount(t) && forall i :: 0 <= i < |ws| ==> IsWordRun(ws[i])
  }

  /** The compiled tokens, with each wildcard given back its `:name`, spell the pattern. */
  lemma {:induction false} CompileRoundTrip(p: string)
    ensures WildCount(Compile(p)) == |Placeholders(p)|
    ensures Fill(Compile(p), WithColons(Placeholders(p))) == p
    decreases |p|
  {
    if p == [] {
    } else if StartsPlaceholder(p) {
      CompileRoundTrip(AfterPlaceholder(p));
      RoundTripWildStep(p);
    } else {
      CompileRoundTrip(p[1..]);
      RoundTripLitStep(p);
    }
  }

  lemma RoundTripWildStep(p: string)
    requires StartsPlaceholder(p)
    requires WildCount(Compile(AfterPlaceholder(p))) == |Placeholders(AfterPlaceholder(p))|
    requires Fill(Compile(AfterPlaceholder(p)), WithColons(Placeholders(AfterPlaceholder(p)))) == AfterPlaceholder(p)
    ensures WildCount(Compile(p)) == |Placeholders(p)|
    ensures Fill(Compile(p), WithColons(Placeholders(p))) == p
  {
    var rest := AfterPlaceholder(p);
    var w := p[1..1 + WordRun(p[1..])];
    assert Compile(p) == [Wild] + Compile(rest);
    assert Placeholders(p) == [w] + Placeholders(rest);
    FillWild(Compile(rest), w, Placeholders(rest));
    PlaceholderSplit(p);
  }

  lemma PlaceholderSplit(p: string)
    requires StartsPlaceholder(p)
    ensures p == [':'] + p[1..1 + WordRun(p[1..])] + AfterPlaceholder(p)
  {
    var k := 1 + WordRun(p[1..]);
    assert p == p[..1] + p[1..k] + p[k..];
  }

  lemma RoundTripLitStep(p: string)
    requires p != [] && !StartsPlaceholder(p)
    requires WildCount(Compile(p[1..])) == |Placeholders(p[1..])|
    requires Fill(Compile(p[1..]), WithColons(Placeholders(p[1..]))) == p[1..]
    ensures WildCount(Compile(p)) == |Placeholders(p)|
    ensures Fill(Compile(p), WithColons(Placeholders(p))) == p
  {
    assert Compile(p) == [Lit(p[0])] + Compile(p[1..]);
    FillLit(Compile(p[1..]), p[0], Placeholders(p[1..]));
    assert p == [p[0]] + p[1..];
  }

  lemma FillWild(t: seq<Token>, name: string, names: seq<string>)
    requires |names| == WildCount(t)
    ensures WildCount([Wild] + t) == 1 + |names|
    ensures Fill([Wild] + t, WithColons([name] + names)) == [':'] + name + Fill(t, WithColons(names))
  {
    assert ([Wild] + t)[1..] == t;
    assert ([name] + names)[1..] == names;
  }

  lemma FillLit(t: seq<Token>, c: char, names: seq<string>)
    requires |names| == WildCount(t)
    ensures WildCount([Lit(c)] + t) == |names|
    ensures Fill([Lit(c)] + t, WithColons(names)) == [c] + Fill(t, WithColons(names))
  {
    assert ([Lit(c)] + t)[1..] == t;
  }

  /** Conversely, a well-formed token list with word-run names that spells
      `p` is the compilation of `p`: the replacement is the only reading. */
  lemma {:induction false} CompileUnique(t: seq<Token>, names: seq<string>, p: string)
    requires WellFormed(t)
    requires |names| == WildCount(t)
    requires forall i :: 0 <= i < |names| ==> IsWordRun(names[i])
    requires Fill(t, WithColons(names)) == p
    ensures Compile(p) == t && Placeholders(p) == names
    decreases |t|
  {
    if t != [] {
      WellFormedTail(t);
      var ws := WithColons(names);
      if t[0] == Wild {
        var rest := Fill(t[1..], WithColons(names[1..]));
        CompileUnique(t[1..], names[1..], rest);
        FillWildHead(t, names);
        FillHead(t[1..], WithColons(names[1..]));
        assert IsWordRun(names[0]);
        CompileWildStep(t, names, rest, p);
      } else {
        var rest := Fill(t[1..], ws);
        CompileUnique(t[1..], names, rest);
        CompileLitStep(t, names, rest, p);
      }
    }
  }

  lemma WellFormedTail(t: seq<Token>)
    requires t != [] && WellFormed(t)
    ensures WellFormed(t[1..])
  {
    forall i | 0 < i < |t[1..]| && t[1..][i].Lit? && IsWordChar(t[1..][i].c)
      ensures t[1..][i - 1] != Wild && t[1..][i - 1] != Lit(':')
    {
      assert t[1..][i] == t[i + 1] && t[1..][i - 1] == t[i];
    }
  }

  lemma CompileLitStep(t: seq<Token>, names: seq<string>, rest: string, p: string)
    requires t != [] && t[0].Lit? && WellFormed(t)
    requires |names| == WildCount(t)
    requires rest == Fill(t[1..], WithColons(names))
    requires Fill(t, WithColons(names)) == p
    requires Compile(rest) == t[1..] && Placeholders(rest) == names
    ensures Compile(p) == t && Placeholders(p) == names
  {
    var c := t[0].c;
    assert p == [c] + rest;
    assert p[1..] == rest;
    LitHeadNotPlaceholder(t, names, rest, p);
    assert Compile(p) == [Lit(c)] + Compile(rest);
    assert t == [Lit(c)] + t[1..];
  }

  lemma LitHeadNotPlaceholder(t: seq<Token>, names: seq<string>, rest: string, p: string)
    requires t != [] && t[0].Lit? && WellFormed(t)
    requires |names| == WildCount(t)
    requires rest == Fill(t[1..], WithColons(names))
    requires p == [t[0].c] + rest
    ensures !StartsPlaceholder(p)
  {
    if t[0].c == ':' && |p| >= 2 {
      FillHead(t[1..], WithColons(names));
      assert |t| >= 2 && p[1] == rest[0];
      assert t[1] == Wild || !IsWordChar(t[1].c);
    }
  }

  lemma CompileWildStep(t: seq<Token>, names: seq<string>, rest: string, p: string)
    requires t != [] && t[0] == Wild
    requires |names| == WildCount(t)
    requires IsWordRun(names[0])
    requires rest == [] || !IsWordChar(rest[0])
    requires p == [':'] + names[0] + rest
    requires Compile(rest) == t[1..] && Placeholders(rest) == names[1..]
    ensures Compile(p) == t && Placeholders(p) == names
  {
    CompilePlaceholder(names[0], rest);
    assert t == [Wild] + t[1..];
    assert names == [names[0]] + names[1..];
  }

  lemma FillWildHead(t: seq<Token>, names: seq<string>)
    requires t != [] && t[0] == Wild
    requires |names| == WildCount(t)
    ensures Fill(t, WithColons(names)) == [':'] + names[0] + Fill(t[1..], WithColons(names[1..]))
  {
    assert WithColons(names)[1..] == WithColons(names[1..]);
  }

  /** A placeholder followed by a non-word character compiles to one wildcard. */
  lemma CompilePlaceholder(w: string, rest: string)
    requires IsWordRun(w)
    requires rest == [] || !IsWordChar(rest[0])
    ensures Compile([':'] + w + rest) == [Wild] + Compile(rest)
    ensures Placeholders([':'] + w + rest) == [w] + Placeholders(rest)
  {
    var p := [':'] + w + rest;
    assert p[1..] == w + rest;
    WordRunStops(w, rest);
    assert p[1 + |w|..] == rest && p[1..1 + |w|] == w;
  }

  /** The first character of a filled token list when it is a word character. */
  lemma FillHead(t: seq<Token>, ws: seq<string>)
    requires |ws| == WildCount(t)
    requires forall i :: 0 <= i < |ws| ==> |ws[i]| > 0 && ws[i][0] == ':'
    ensures t == [] ==> Fill(t, ws) == []
    ensures t != [] && t[0] == Wild ==> |Fill(t, ws)| > 0 && Fill(t, ws)[0] == ':'
    ensures t != [] && t[0].Lit? ==> |Fill(t, ws)| > 0 && Fill(t, ws)[0] == t[0].c
  {
  }

  lemma {:induction false} WordRunStops(w: string, rest: string)
    requires forall i :: 0 <= i < |w| ==> IsWordChar(w[i])
    requires rest == [] || !IsWordChar(rest[0])
    ensures WordRun(w + rest) == |w|
  {
    if w != [] {
      assert (w + rest)[1..] == w[1..] + rest;
      WordRunStops(w[1..], rest);
    }
  }

  /** Anchored match of the tokens against the whole of `s`. */
  predicate MatchTokens(t: seq<Token>, s: string)
    decreases |s|
  {
    if t == [] then s == []
    else if s == [] then false
    else match t[0]
      case Lit(c) => s[0] == c && MatchTokens(t[1..], s[1..])
      case Wild => IsWordChar(s[0]) && (MatchTokens(t[1..], s[1..]) || MatchTokens(t, s[1..]))
  }

  /** `(.json)` with the unescaped dot: any one character but a line terminator, then `json`. */
  predicate IsJsonSuffix(x: string)
  {
    |x| == 5 && !IsLineTerminator(x[0]) && x[1..] == "json"
  }

  predicate OptionalSuffix(x: string)
  {
    x == [] || IsJsonSuffix(x)
  }

  /** `RegExp('^' + tokens + '(.json)?$').exec(uri) !== null`. */
  predicate Accepts(t: seq<Token>, uri: string)
  {
    || MatchTokens(t, uri)
    || (|uri| >= 5 && IsJsonSuffix(uri[|uri| - 5..]) && MatchTokens(t, uri[..|uri| - 5]))
  }

  /** A wildcard that has matched a word run can match one more word character in front of it. */
  lemma {:induction false} WildExtends(t: seq<Token>, w: string, rest: string)
    requires t != [] && t[0] == Wild
    requires IsWordRun(w)
    requires MatchTokens(t[1..], rest)
    ensures MatchTokens(t, w + rest)
    decreases |w|
  {
    assert (w + rest)[1..] == w[1..] + rest;
    if |w| > 1 {
      WildExtends(t, w[1..], rest);
    }
  }

  /** Every filling of the wildcards with word runs is matched. */
  lemma {:induction false} FillMatches(t: seq<Token>, ws: seq<string>)
    requires WordFills(t, ws)
    ensures MatchTokens(t, Fill(t, ws))
  {
    if t != [] {
      match t[0]
      case Lit(c) =>
        FillMatches(t[1..], ws);
        assert ([c] + Fill(t[1..], ws))[1..] == Fill(t[1..], ws);
      case Wild =>
        assert WordFills(t[1..], ws[1..]) by {
          forall i | 0 <= i < |ws[1..]| ensures IsWordRun(ws[1..][i]) {
            assert ws[1..][i] == ws[i + 1];
          }
        }
        FillMatches(t[1..], ws[1..]);
        WildExtends(t, ws[0], Fill(t[1..], ws[1..]));
    }
  }

  /** Every matched string is such a filling. */
  lemma {:induction false} MatchIsFill(t: seq<Token>, s: string) returns (ws: seq<string>)
    requires MatchTokens(t, s)
    ensures WordFills(t, ws) && Fill(t, ws) == s
    decreases |s|
  {
    if t == [] {
      ws := [];
    } else {
      match t[0]
      case Lit(c) =>
        ws := MatchIsFill(t[1..], s[1..]);
        assert s == [c] + s[1..];
      case Wild =>
        if MatchTokens(t[1..], s[1..]) {
          var tail := MatchIsFill(t[1..], s[1..]);
          ws := [[s[0]]] + tail;
          assert ws[1..] == tail;
          assert s == [s[0]] + s[1..];
        } else {
          var more := MatchIsFill(t, s[1..]);
          ws := [[s[0]] + more[0]] + more[1..];
          assert ws[1..] == more[1..];
          assert s == [s[0]] + s[1..];
          assert IsWordRun(ws[0]) by {
            assert IsWordRun(more[0]);
            forall i | 0 <= i < |ws[0]| ensures IsWordChar(ws[0][i]) {
              if i > 0 { assert ws[0][i] == more[0][i - 1]; }
            }
          }
          assert forall i :: 1 <= i < |ws| ==> ws[i] == more[i];
        }
    }
  }

  /** The tokens match exactly the fillings of their wildcards with word runs. */
  lemma MatchIffFill(t: seq<Token>, s: string)
    ensures MatchTokens(t, s) <==> exists ws :: WordFills(t, ws) && Fill(t, ws) == s
  {
    if MatchTokens(t, s) {
      var ws := MatchIsFill(t, s);
    }
    if ws :| WordFills(t, ws) && Fill(t, ws) == s {
      FillMatches(t, ws);
    }
  }

  /** The compiled matcher accepts `uri` exactly when `uri` is the pattern with
      each placeholder replaced by a word run, followed by nothing or by one
      non-line-terminator character and `json`. */
  lemma AcceptsIffInstance(t: seq<Token>, uri: string)
    ensures Accepts(t, uri) <==>
      exists ws, x :: WordFills(t, ws) && OptionalSuffix(x) && uri == Fill(t, ws) + x
  {
    if Accepts(t, uri) {
      if MatchTokens(t, uri) {
        var ws := MatchIsFill(t, uri);
        var x: string := [];
        assert OptionalSuffix(x) && uri == Fill(t, ws) + x;
      } else {
        var ws := MatchIsFill(t, uri[..|uri| - 5]);
        var x := uri[|uri| - 5..];
        assert OptionalSuffix(x) && uri == Fill(t, ws) + x;
      }
    }
    if ws, x :| WordFills(t, ws) && OptionalSuffix(x) && uri == Fill(t, ws) + x {
      FillMatches(t, ws);
      if x == [] {
        assert uri == Fill(t, ws);
      } else {
        assert uri[..|uri| - 5] == Fill(t, ws);
        assert uri[|uri| - 5..] == x;
        assert IsJsonSuffix(uri[|uri| - 5..]);
      }
      assert Accepts(t, uri);
    }
  }
}
