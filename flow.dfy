/**
 * What `parseLog` builds from the accepted lines (pages/index.tsx:64-84),
 * stated on values: the visits in line order, the per-client ordinal that
 * names each visit's node (`#<k> <endpoint name>`), the node names in
 * first-seen order, and one transition per visit that is not its client's
 * first, from the client's previous node to the new one.
 */
module Flow {

  import opened JsString
  import opened Endpoints
  import opened LogLine

  /** The accepted visits, in line order. */
  function VisitsOf(os: seq<Outcome>): seq<Visit>
  {
    if os == [] then []
    else
      var last := os[|os| - 1];
      VisitsOf(os[..|os| - 1]) + (if last.Accepted? then [last.visit] else [])
  }

  /** The errors, in line order. */
  function ErrorsOf(os: seq<Outcome>): seq<LogError>
  {
    if os == [] then []
    else
      var last := os[|os| - 1];
      ErrorsOf(os[..|os| - 1]) + (if last.Rejected? then [last.error] else [])
  }

  /** Every line is either a visit or an error. */
  lemma {:induction false} VisitsErrorsCount(os: seq<Outcome>)
    ensures |VisitsOf(os)| + |ErrorsOf(os)| == |os|
  {
    if os != [] {
      VisitsErrorsCount(os[..|os| - 1]);
    }
  }

  /** The visits are exactly those of the accepted outcomes. */
  lemma {:induction false} VisitsOfMembers(os: seq<Outcome>)
    ensures forall v :: v in VisitsOf(os) <==> exists i :: 0 <= i < |os| && os[i] == Accepted(v)
  {
    if os != [] {
      var init := os[..|os| - 1];
      VisitsOfMembers(init);
      forall v ensures v in VisitsOf(os) <==> exists i :: 0 <= i < |os| && os[i] == Accepted(v) {
        if v in VisitsOf(init) {
          var i :| 0 <= i < |init| && init[i] == Accepted(v);
          assert os[i] == Accepted(v);
        }
        if i :| 0 <= i < |os| && os[i] == Accepted(v) {
          if i < |init| {
            assert init[i] == Accepted(v);
          }
        }
      }
    }
  }

  /** The errors are exactly those of the rejected outcomes. */
  lemma {:induction false} ErrorsOfMembers(os: seq<Outcome>)
    ensures forall e :: e in ErrorsOf(os) <==> exists i :: 0 <= i < |os| && os[i] == Rejected(e)
  {
    if os != [] {
      var init := os[..|os| - 1];
      ErrorsOfMembers(init);
      forall e ensures e in ErrorsOf(os) <==> exists i :: 0 <= i < |os| && os[i] == Rejected(e) {
        if e in ErrorsOf(init) {
          var i :| 0 <= i < |init| && init[i] == Rejected(e);
          assert os[i] == Rejected(e);
        }
        if i :| 0 <= i < |os| && os[i] == Rejected(e) {
          if i < |init| {
            assert init[i] == Rejected(e);
          }
        }
      }
    }
  }

  /** A rejected line adds its error and changes nothing the graph is built from. */
  lemma RejectedLineInert(os: seq<Outcome>, e: LogError)
    ensures VisitsOf(os + [Rejected(e)]) == VisitsOf(os)
    ensures ErrorsOf(os + [Rejected(e)]) == ErrorsOf(os) + [e]
  {
    assert (os + [Rejected(e)])[..|os|] == os;
  }

  /** An accepted line adds its visit and no error. */
  lemma AcceptedLine(os: seq<Outcome>, v: Visit)
    ensures VisitsOf(os + [Accepted(v)]) == VisitsOf(os) + [v]
    ensures ErrorsOf(os + [Accepted(v)]) == ErrorsOf(os)
  {
    assert (os + [Accepted(v)])[..|os|] == os;
  }

  /** Each error names a line of `ls` by its 1-based number and its text. */
  ghost predicate NamesLines(es: seq<LogError>, ls: seq<string>)
  {
    forall a :: 0 <= a < |es| ==> 1 <= es[a].line <= |ls| && es[a].raw == ls[es[a].line - 1]
  }

  /** Later errors have larger line numbers. */
  ghost predicate Increasing(es: seq<LogError>)
  {
    forall a, b :: 0 <= a < b < |es| ==> es[a].line < es[b].line
  }

  lemma NamesLinesExtend(es: seq<LogError>, ls: seq<string>, l: string)
    requires NamesLines(es, ls)
    ensures NamesLines(es, ls + [l])
  {
    forall a | 0 <= a < |es| ensures (ls + [l])[es[a].line - 1] == ls[es[a].line - 1] {
    }
  }

  lemma ErrorAppend(es: seq<LogError>, ls: seq<string>, e: LogError)
    requires NamesLines(es, ls) && Increasing(es)
    requires e.line == |ls| + 1
    ensures Increasing(es + [e])
  {
  }

  /** The errors of a log name lines of the log, each by its number and its
      text, and come out in increasing line order. */
  lemma {:induction false} LogErrorsOrdered(ls: seq<string>, eps: seq<Endpoint>)
    ensures NamesLines(ErrorsOf(Outcomes(ls, eps)), ls)
    ensures Increasing(ErrorsOf(Outcomes(ls, eps)))
  {
    if ls != [] {
      var init := ls[..|ls| - 1];
      var l := ls[|ls| - 1];
      assert ls == init + [l];
      var os := Outcomes(init, eps);
      LogErrorsOrdered(init, eps);
      NamesLinesExtend(ErrorsOf(os), init, l);
      match ClassifyLine(|ls|, l, eps) {
        case Accepted(v) =>
          AcceptedLine(os, v);
        case Rejected(e) =>
          ClassifyLineNames(|ls|, l, eps);
          RejectedLineInert(os, e);
          ErrorAppend(ErrorsOf(os), init, e);
      }
    }
  }

  /** Number of visits by client `u`. */
  function CountUid(vs: seq<Visit>, u: string): nat
  {
    if vs == [] then 0
    else CountUid(vs[..|vs| - 1], u) + (if vs[|vs| - 1].uid == u then 1 else 0)
  }

  /** `#${k} ${name}`. */
  function NodeName(k: nat, endpointName: string): string
  {
    "#" + Decimal(k) + " " + endpointName
  }

  /** The node name of each visit: its endpoint, numbered by how many
      earlier visits the same client made. */
  function NameSeq(vs: seq<Visit>): (ns: seq<string>)
    ensures |ns| == |vs|
  {
    if vs == [] then []
    else
      var init := vs[..|vs| - 1];
      var v := vs[|vs| - 1];
      NameSeq(init) + [NodeName(CountUid(init, v.uid), v.endpointName)]
  }

  /** The node name of the last visit by `u`. */
  function LastName(vs: seq<Visit>, u: string): string
    requires CountUid(vs, u) > 0
  {
    var init := vs[..|vs| - 1];
    var v := vs[|vs| - 1];
    if v.uid == u then NodeName(CountUid(init, u), v.endpointName) else LastName(init, u)
  }

  /** A move of one client from one node to the next. */
  datatype Transition = Transition(from: string, to: string)

  /** One transition per visit that is not its client's first, in line order. */
  function Transitions(vs: seq<Visit>): seq<Transition>
  {
    if vs == [] then []
    else
      var init := vs[..|vs| - 1];
      var v := vs[|vs| - 1];
      var k := CountUid(init, v.uid);
      Transitions(init) + (if k > 0 then [Transition(LastName(init, v.uid), NodeName(k, v.endpointName))] else [])
  }

  /** One more visit by `v.uid`: its count goes up by one, its node is
      named by the old count, it becomes that client's last node, and it adds
      a transition exactly when the client had visited before. Nothing about
      other clients changes. */
  lemma VisitStep(vs: seq<Visit>, v: Visit)
    ensures var k := CountUid(vs, v.uid); var name := NodeName(k, v.endpointName); var vs' := vs + [v];
      && CountUid(vs', v.uid) == k + 1
      && NameSeq(vs') == NameSeq(vs) + [name]
      && LastName(vs', v.uid) == name
      && Transitions(vs') == Transitions(vs) + (if k > 0 then [Transition(LastName(vs, v.uid), name)] else [])
    ensures forall u :: u != v.uid ==> CountUid(vs + [v], u) == CountUid(vs, u)
    ensures forall u :: u != v.uid && CountUid(vs, u) > 0 ==> LastName(vs + [v], u) == LastName(vs, u)
  {
    assert (vs + [v])[..|vs|] == vs;
  }

  /** The clients, each once, in order of their first visit. */
  function DistinctUids(vs: seq<Visit>): seq<string>
  {
    if vs == [] then []
    else
      var init := vs[..|vs| - 1];
      var u := vs[|vs| - 1].uid;
      DistinctUids(init) + (if CountUid(init, u) > 0 then [] else [u])
  }

  predicate Distinct<T(==)>(s: seq<T>)
  {
    forall i, j :: 0 <= i < j < |s| ==> s[i] != s[j]
  }

  /** The names in `s`, each once, in order of first occurrence. */
  function Dedup(s: seq<string>): (r: seq<string>)
    ensures Distinct(r)
    ensures forall x :: x in r <==> x in s
  {
    if s == [] then []
    else
      var init := Dedup(s[..|s| - 1]);
      var x := s[|s| - 1];
      assert s == s[..|s| - 1] + [x];
      if x in init then init else init + [x]
  }

  /** Dedup only ever appends: deduplicating a prefix gives a prefix. */
  lemma DedupStep(s: seq<string>, x: string)
    ensures Dedup(s) <= Dedup(s + [x])
    ensures x in Dedup(s) ==> Dedup(s + [x]) == Dedup(s)
    ensures x !in Dedup(s) ==> Dedup(s + [x]) == Dedup(s) + [x]
  {
    assert (s + [x])[..|s|] == s;
  }

  /** A client has visited exactly when it is among the distinct clients, which are listed once each. */
  lemma {:induction false} DistinctUidsSpec(vs: seq<Visit>)
    ensures Distinct(DistinctUids(vs))
    ensures forall u :: u in DistinctUids(vs) <==> CountUid(vs, u) > 0
  {
    if vs != [] {
      var init := vs[..|vs| - 1];
      DistinctUidsSpec(init);
    }
  }

  /** Each client's first visit starts its path; every later visit makes a
      transition: #transitions = #visits - #distinct clients. */
  lemma {:induction false} TransitionCount(vs: seq<Visit>)
    ensures |Transitions(vs)| + |DistinctUids(vs)| == |vs|
  {
    if vs != [] {
      TransitionCount(vs[..|vs| - 1]);
    }
  }

  /** The number written after `#` at the start of a node name. */
  function Rank(name: string): nat
  {
    if |name| > 0 && name[0] == '#' then DecimalValue(DigitPrefix(name[1..])) else 0
  }

  /** The ordinal reads back from a node name. */
  lemma NodeNameRank(k: nat, endpointName: string)
    ensures Rank(NodeName(k, endpointName)) == k
  {
    var n := NodeName(k, endpointName);
    assert n[1..] == Decimal(k) + (" " + endpointName);
    DigitPrefixStops(Decimal(k), " " + endpointName);
  }

  /** Different ordinals or endpoints give different node names. */
  lemma NodeNameInjective(k1: nat, e1: string, k2: nat, e2: string)
    requires NodeName(k1, e1) == NodeName(k2, e2)
    ensures k1 == k2 && e1 == e2
  {
    NodeNameRank(k1, e1);
    NodeNameRank(k2, e2);
    var n := NodeName(k1, e1);
    var p := |Decimal(k1)| + 2;
    assert n[p..] == e1;
    assert NodeName(k2, e2)[p..] == e2;
  }

  /** The last visit of `u` is its one with ordinal count - 1. */
  lemma {:induction false} LastNameRank(vs: seq<Visit>, u: string)
    requires CountUid(vs, u) > 0
    ensures Rank(LastName(vs, u)) == CountUid(vs, u) - 1
    ensures LastName(vs, u) in NameSeq(vs)
  {
    var init := vs[..|vs| - 1];
    var v := vs[|vs| - 1];
    if v.uid == u {
      NodeNameRank(CountUid(init, u), v.endpointName);
    } else {
      LastNameRank(init, u);
    }
  }

  /** Every transition joins two nodes of the visits, and goes from ordinal k
      to ordinal k + 1. */
  lemma {:induction false} TransitionsLayered(vs: seq<Visit>)
    ensures forall t :: t in Transitions(vs) ==>
      t.from in NameSeq(vs) && t.to in NameSeq(vs) && Rank(t.to) == Rank(t.from) + 1
  {
    if vs != [] {
      var init := vs[..|vs| - 1];
      var v := vs[|vs| - 1];
      var k := CountUid(init, v.uid);
      TransitionsLayered(init);
      assert NameSeq(vs) == NameSeq(init) + [NodeName(k, v.endpointName)];
      if k > 0 {
        LastNameRank(init, v.uid);
        NodeNameRank(k, v.endpointName);
      }
    }
  }

  /** The name of visit `i` carries the number of earlier visits by the same client. */
  lemma {:induction false} NameSeqAt(vs: seq<Visit>, i: nat)
    requires i < |vs|
    ensures NameSeq(vs)[i] == NodeName(CountUid(vs[..i], vs[i].uid), vs[i].endpointName)
  {
    var init := vs[..|vs| - 1];
    if i < |init| {
      NameSeqAt(init, i);
      assert init[..i] == vs[..i];
      assert init[i] == vs[i];
    }
  }
}
