/**
 * `parseLog` (pages/index.tsx:30-92): one pass over the log lines that
 * interns node names, keeps each client's list of node indices and
 * records a link for every consecutive pair of a client's visits.
 *
 * `links` in the source is a `Map` keyed by a freshly built pair
 * `[a, b] as const`; lookups compare keys by identity, so `links.get`
 * never finds an earlier entry and every transition becomes a new entry
 * with value 1, in insertion order. The model keeps that list.
 */
module LogGraph {

  import opened JsString
  import opened Endpoints
  import opened LogLine
  import opened Flow

  /** `{ source, target, value }`: indices into the node list. */
  datatype Link = Link(source: nat, target: nat, value: nat)

  /** The links are the transitions, one each and in order, written as node indices. */
  predicate Realizes(links: seq<Link>, nodes: seq<string>, ts: seq<Transition>)
  {
    && |links| == |ts|
    && forall j :: 0 <= j < |links| ==>
         && links[j].source < |nodes| && links[j].target < |nodes|
         && nodes[links[j].source] == ts[j].from
         && nodes[links[j].target] == ts[j].to
         && links[j].value == 1
  }

  /** Position of `x` in `s` (`|s|` when absent). */
  function IndexOf(s: seq<string>, x: string): (k: nat)
    ensures k <= |s|
    ensures x in s ==> k < |s| && s[k] == x
    ensures x !in s ==> k == |s|
  {
    if s == [] then 0 else if s[0] == x then 0 else 1 + IndexOf(s[1..], x)
  }

  /** Appending leaves the positions of earlier elements alone and puts a new one last. */
  lemma {:induction false} IndexOfAppend(s: seq<string>, y: string, x: string)
    requires x in s || x == y
    ensures IndexOf(s + [y], x) == if x in s then IndexOf(s, x) else |s|
  {
    if s != [] {
      assert (s + [y])[1..] == s[1..] + [y];
      if s[0] != x {
        IndexOfAppend(s[1..], y, x);
      }
    }
  }

  /** `nodeToIndex` for the node list `s`: each name mapped to its position,
      built by `set`s in list order. */
  function IndexMap(s: seq<string>): map<string, nat>
  {
    if s == [] then map[] else IndexMap(s[..|s| - 1])[s[|s| - 1] := |s| - 1]
  }

  /** For a list of distinct names, the map holds exactly its names, each at its position. */
  lemma {:induction false} IndexMapAt(s: seq<string>, x: string)
    requires Distinct(s)
    ensures x in IndexMap(s) <==> x in s
    ensures x in s ==> IndexMap(s)[x] == IndexOf(s, x)
  {
    if s != [] {
      var init := s[..|s| - 1];
      assert s == init + [s[|s| - 1]];
      assert Distinct(init) by {
        forall i, j | 0 <= i < j < |init| ensures init[i] != init[j] {
          assert init[i] == s[i] && init[j] == s[j];
        }
      }
      IndexMapAt(init, x);
      if x in s {
        IndexOfAppend(init, s[|s| - 1], x);
        if x in init {
          var j :| 0 <= j < |init| && init[j] == x;
          assert s[j] == x;
        }
      }
    }
  }

  /** Interning one name (pages/index.tsx:70-75) keeps the map the position
      map of the node list: a known name leaves both alone, and a new one is
      mapped to the position it is appended at. */
  lemma IndexMapPush(s: seq<string>, x: string)
    requires Distinct(s)
    ensures (if x in IndexMap(s) then IndexMap(s) else IndexMap(s)[x := |s|])
            == IndexMap(if x in s then s else s + [x])
  {
    IndexMapAt(s, x);
    if x !in s {
      assert (s + [x])[..|s|] == s;
    }
  }

  /** The variables `parseLog`'s line callback updates. */
  datatype State = State(nodes: seq<string>, nodeToIndex: map<string, nat>,
                         accesses: map<string, seq<nat>>, links: seq<Link>)

  /** The callback's effect for an accepted line (pages/index.tsx:64-84):
      the node is named by the length of the client's index list, interned,
      its index appended to the list, and once the list has two entries a
      link from the previous entry to the new one is appended. */
  function Step(st: State, v: Visit): State
  {
    var access := if v.uid in st.accesses then st.accesses[v.uid] else [];
    var name := NodeName(|access|, v.endpointName);
    var known := name in st.nodeToIndex;
    var nodeIndex := if known then st.nodeToIndex[name] else |st.nodes|;
    var access' := access + [nodeIndex];
    State(
      if known then st.nodes else st.nodes + [name],
      if known then st.nodeToIndex else st.nodeToIndex[name := nodeIndex],
      st.accesses[v.uid := access'],
      st.links + (if |access'| >= 2 then [Link(access'[|access'| - 2], access'[|access'| - 1], 1)] else []))
  }

  /** The state after the visits `vs`, starting from empty variables. */
  function Build(vs: seq<Visit>): State
  {
    if vs == [] then State([], map[], map[], []) else Step(Build(vs[..|vs| - 1]), vs[|vs| - 1])
  }

  lemma BuildStep(vs: seq<Visit>, v: Visit)
    ensures Build(vs + [v]) == Step(Build(vs), v)
  {
    assert (vs + [v])[..|vs|] == vs;
  }

  /** Each client's index list has one entry per visit, and its last entry
      is the index of the client's last node. */
  ghost predicate AccessOk(vs: seq<Visit>, st: State, u: string)
  {
    && (u in st.accesses <==> CountUid(vs, u) > 0)
    && (u in st.accesses ==>
          var a := st.accesses[u];
          && |a| == CountUid(vs, u)
          && a[|a| - 1] < |st.nodes| && st.nodes[a[|a| - 1]] == LastName(vs, u))
  }

  /** The nodes are the visits' names, each once in first-seen order, and
      `nodeToIndex` maps each to its position. */
  ghost predicate NodesOk(vs: seq<Visit>, st: State)
  {
    st.nodes == Dedup(NameSeq(vs)) && st.nodeToIndex == IndexMap(st.nodes)
  }

  /** One visit's effect on the nodes and the name-to-index map: the node
      list grows by the visit's name exactly when the name is new, and the
      client's last index points at that name. */
  lemma NodesStep(init: seq<Visit>, st: State, v: Visit)
    requires NodesOk(init, st) && AccessOk(init, st, v.uid)
    ensures var st' := Step(st, v); var name := NodeName(CountUid(init, v.uid), v.endpointName);
      && NodesOk(init + [v], st')
      && (if name in st.nodes then st'.nodes == st.nodes else st'.nodes == st.nodes + [name])
      && st'.accesses[v.uid][|st'.accesses[v.uid]| - 1] < |st'.nodes|
      && st'.nodes[st'.accesses[v.uid][|st'.accesses[v.uid]| - 1]] == name
  {
    NodesStepList(init, st, v);
    NodesStepIndex(init, st, v);
    NodesStepTarget(init, st, v);
  }

  lemma NodesStepList(init: seq<Visit>, st: State, v: Visit)
    requires NodesOk(init, st) && AccessOk(init, st, v.uid)
    ensures var name := NodeName(CountUid(init, v.uid), v.endpointName);
      && Step(st, v).nodes == (if name in st.nodes then st.nodes else st.nodes + [name])
      && Step(st, v).nodes == Dedup(NameSeq(init + [v]))
  {
    var name := NodeName(CountUid(init, v.uid), v.endpointName);
    VisitStep(init, v);
    DedupStep(NameSeq(init), name);
    IndexMapAt(st.nodes, name);
  }

  lemma NodesStepIndex(init: seq<Visit>, st: State, v: Visit)
    requires NodesOk(init, st)
    requires var name := NodeName(CountUid(init, v.uid), v.endpointName);
      && (v.uid in st.accesses ==> |st.accesses[v.uid]| == CountUid(init, v.uid))
      && (v.uid !in st.accesses ==> CountUid(init, v.uid) == 0)
      && Step(st, v).nodes == (if name in st.nodes then st.nodes else st.nodes + [name])
    ensures Step(st, v).nodeToIndex == IndexMap(Step(st, v).nodes)
  {
    IndexMapPush(st.nodes, NodeName(CountUid(init, v.uid), v.endpointName));
  }

  lemma NodesStepTarget(init: seq<Visit>, st: State, v: Visit)
    requires NodesOk(init, st)
    requires var name := NodeName(CountUid(init, v.uid), v.endpointName);
      && (v.uid in st.accesses ==> |st.accesses[v.uid]| == CountUid(init, v.uid))
      && (v.uid !in st.accesses ==> CountUid(init, v.uid) == 0)
      && Step(st, v).nodes == (if name in st.nodes then st.nodes else st.nodes + [name])
    ensures var st' := Step(st, v); var a := st'.accesses[v.uid];
      a[|a| - 1] < |st'.nodes| && st'.nodes[a[|a| - 1]] == NodeName(CountUid(init, v.uid), v.endpointName)
  {
    var name := NodeName(CountUid(init, v.uid), v.endpointName);
    IndexMapAt(st.nodes, name);
  }

  /** The visiting client's index list after one more visit. */
  lemma AccessStepSame(init: seq<Visit>, st: State, v: Visit)
    requires NodesOk(init, st) && AccessOk(init, st, v.uid)
    ensures AccessOk(init + [v], Step(st, v), v.uid)
  {
    NodesStep(init, st, v);
    VisitStep(init, v);
  }

  /** Another client's index list is untouched by one more visit. */
  lemma AccessStepOther(init: seq<Visit>, st: State, v: Visit, u: string)
    requires u != v.uid && AccessOk(init, st, u)
    requires st.nodes <= Step(st, v).nodes
    ensures AccessOk(init + [v], Step(st, v), u)
  {
    VisitStep(init, v);
  }

  /** Links keep realizing their transitions when nodes are appended. */
  lemma RealizesGrow(links: seq<Link>, nodes: seq<string>, nodes': seq<string>, ts: seq<Transition>)
    requires Realizes(links, nodes, ts) && nodes <= nodes'
    ensures Realizes(links, nodes', ts)
  {
    forall j | 0 <= j < |links|
      ensures nodes'[links[j].source] == nodes[links[j].source]
      ensures nodes'[links[j].target] == nodes[links[j].target]
    {
    }
  }

  lemma RealizesAppend(links: seq<Link>, nodes: seq<string>, ts: seq<Transition>, l: Link, t: Transition)
    requires Realizes(links, nodes, ts)
    requires l.source < |nodes| && l.target < |nodes|
    requires nodes[l.source] == t.from && nodes[l.target] == t.to && l.value == 1
    ensures Realizes(links + [l], nodes, ts + [t])
  {
    forall j | 0 <= j < |links| ensures (links + [l])[j] == links[j] && (ts + [t])[j] == ts[j] {
    }
  }

  /** One visit's effect on the links: one more link, for the client's
      transition, exactly when the client had visited before. */
  lemma LinksStep(init: seq<Visit>, st: State, v: Visit)
    requires Realizes(st.links, st.nodes, Transitions(init))
    requires NodesOk(init, st) && AccessOk(init, st, v.uid)
    ensures Realizes(Step(st, v).links, Step(st, v).nodes, Transitions(init + [v]))
  {
    NodesStepList(init, st, v);
    NodesStepTarget(init, st, v);
    VisitStep(init, v);
    RealizesGrow(st.links, st.nodes, Step(st, v).nodes, Transitions(init));
    if v.uid in st.accesses {
      LinksStepRepeat(init, st, v);
    }
  }

  /** A returning client adds the link from its previous node to its new one. */
  lemma LinksStepRepeat(init: seq<Visit>, st: State, v: Visit)
    requires v.uid in st.accesses && AccessOk(init, st, v.uid)
    requires Realizes(st.links, Step(st, v).nodes, Transitions(init))
    requires st.nodes <= Step(st, v).nodes
    requires var st' := Step(st, v); var a := st'.accesses[v.uid];
      a[|a| - 1] < |st'.nodes| && st'.nodes[a[|a| - 1]] == NodeName(CountUid(init, v.uid), v.endpointName)
    ensures Realizes(Step(st, v).links, Step(st, v).nodes,
      Transitions(init) + [Transition(LastName(init, v.uid), NodeName(CountUid(init, v.uid), v.endpointName))])
  {
    var st' := Step(st, v);
    var prev := st.accesses[v.uid];
    var a := st'.accesses[v.uid];
    var l := Link(prev[|prev| - 1], a[|a| - 1], 1);
    assert st'.links == st.links + [l];
    RealizesAppend(st.links, st'.nodes, Transitions(init), l,
      Transition(LastName(init, v.uid), NodeName(CountUid(init, v.uid), v.endpointName)));
  }

  lemma {:induction false} BuildNodes(vs: seq<Visit>)
    ensures NodesOk(vs, Build(vs))
  {
    if vs != [] {
      var init := vs[..|vs| - 1];
      var v := vs[|vs| - 1];
      assert vs == init + [v];
      BuildNodes(init);
      BuildAccess(init, v.uid);
      NodesStep(init, Build(init), v);
    }
  }

  /** The index lists after the visits `vs`. */
  lemma {:induction false} BuildAccess(vs: seq<Visit>, u: string)
    ensures AccessOk(vs, Build(vs), u)
  {
    if vs != [] {
      var init := vs[..|vs| - 1];
      var v := vs[|vs| - 1];
      assert vs == init + [v];
      BuildNodes(init);
      BuildAccess(init, v.uid);
      if u == v.uid {
        AccessStepSame(init, Build(init), v);
      } else {
        NodesStep(init, Build(init), v);
        BuildAccess(init, u);
        AccessStepOther(init, Build(init), v, u);
      }
    }
  }

  /** The links are the transitions, one link each, in order. */
  lemma {:induction false} BuildLinks(vs: seq<Visit>)
    ensures Realizes(Build(vs).links, Build(vs).nodes, Transitions(vs))
  {
    if vs != [] {
      var init := vs[..|vs| - 1];
      var v := vs[|vs| - 1];
      assert vs == init + [v];
      BuildLinks(init);
      BuildNodes(init);
      BuildAccess(init, v.uid);
      LinksStep(init, Build(init), v);
    }
  }

  /** Total value of the link entries from node `a` to node `b`. */
  function Weight(links: seq<Link>, a: nat, b: nat): nat
  {
    if links == [] then 0
    else
      var l := links[|links| - 1];
      Weight(links[..|links| - 1], a, b) + (if l.source == a && l.target == b then l.value else 0)
  }

  /** Number of transitions from name `x` to name `y`. */
  function PairCount(ts: seq<Transition>, x: string, y: string): nat
  {
    if ts == [] then 0
    else PairCount(ts[..|ts| - 1], x, y) + (if ts[|ts| - 1] == Transition(x, y) then 1 else 0)
  }

  /** Although every transition is its own entry, the weight between two
      nodes, summed over the entries, is the number of transitions between
      their names. */
  lemma {:induction false} WeightCountsTransitions(links: seq<Link>, nodes: seq<string>, ts: seq<Transition>, a: nat, b: nat)
    requires Realizes(links, nodes, ts) && Distinct(nodes)
    requires a < |nodes| && b < |nodes|
    ensures Weight(links, a, b) == PairCount(ts, nodes[a], nodes[b])
  {
    if links != [] {
      var n := |links| - 1;
      assert Realizes(links[..n], nodes, ts[..n]) by {
        forall j | 0 <= j < n ensures links[..n][j] == links[j] && ts[..n][j] == ts[j] {
        }
      }
      WeightCountsTransitions(links[..n], nodes, ts[..n], a, b);
      var l := links[n];
      assert l.source == a <==> nodes[l.source] == nodes[a];
      assert l.target == b <==> nodes[l.target] == nodes[b];
    }
  }

  /** Every link goes from a node of ordinal k to a node of ordinal k + 1. */
  ghost predicate Layered(links: seq<Link>, nodes: seq<string>)
  {
    forall j :: 0 <= j < |links| ==>
      links[j].source < |nodes| && links[j].target < |nodes| &&
      Rank(nodes[links[j].target]) == Rank(nodes[links[j].source]) + 1
  }

  lemma LinksLayered(vs: seq<Visit>, links: seq<Link>, nodes: seq<string>)
    requires Realizes(links, nodes, Transitions(vs))
    ensures Layered(links, nodes)
  {
    TransitionsLayered(vs);
    forall j | 0 <= j < |links|
      ensures Rank(nodes[links[j].target]) == Rank(nodes[links[j].source]) + 1
    {
      assert Transitions(vs)[j] in Transitions(vs);
    }
  }

  /** Some link goes from node `a` to node `b`. */
  ghost predicate IsLink(links: seq<Link>, a: nat, b: nat)
  {
    exists j :: 0 <= j < |links| && links[j].source == a && links[j].target == b
  }

  /** `p` follows links, node to node. */
  ghost predicate IsPath(links: seq<Link>, p: seq<nat>)
  {
    forall i :: 0 <= i < |p| - 1 ==> IsLink(links, p[i], p[i + 1])
  }

  /** Along a path of layered links the ordinal goes up by one per step. */
  lemma {:induction false} PathRank(links: seq<Link>, nodes: seq<string>, p: seq<nat>)
    requires Layered(links, nodes) && IsPath(links, p)
    requires |p| >= 2
    ensures p[|p| - 1] < |nodes| && p[0] < |nodes|
    ensures Rank(nodes[p[|p| - 1]]) == Rank(nodes[p[0]]) + |p| - 1
  {
    var n := |p| - 1;
    assert IsLink(links, p[n - 1], p[n]);
    var j :| 0 <= j < |links| && links[j].source == p[n - 1] && links[j].target == p[n];
    if n >= 2 {
      assert IsPath(links, p[..n]) by {
        forall i | 0 <= i < n - 1 ensures IsLink(links, p[..n][i], p[..n][i + 1]) {
          assert IsLink(links, p[i], p[i + 1]);
        }
      }
      PathRank(links, nodes, p[..n]);
    }
  }

  /** The flow graph has no cycle: no path of links returns to its start. */
  lemma NoCycle(links: seq<Link>, nodes: seq<string>, p: seq<nat>)
    requires Layered(links, nodes) && IsPath(links, p)
    requires |p| >= 2
    ensures p[0] != p[|p| - 1]
  {
    PathRank(links, nodes, p);
  }

  /** The line callback for an accepted line (pages/index.tsx:64-84),
      updating the variables it is given. `Step` is its specification: the
      same updates as a function, which `Build` folds over the visits and
      the lemmas above are about. */
  method AddVisit(nodes: seq<string>, nodeToIndex: map<string, nat>, accesses: map<string, seq<nat>>, links: seq<Link>, v: Visit)
    returns (nodes': seq<string>, nodeToIndex': map<string, nat>, accesses': map<string, seq<nat>>, links': seq<Link>)
    ensures State(nodes', nodeToIndex', accesses', links') == Step(State(nodes, nodeToIndex, accesses, links), v)
  {
    var access := if v.uid in accesses then accesses[v.uid] else [];
    var name := NodeName(|access|, v.endpointName);
    nodes', nodeToIndex' := nodes, nodeToIndex;
    var nodeIndex: nat;
    if name in nodeToIndex {
      nodeIndex := nodeToIndex[name];
    } else {
      nodeIndex := |nodes|;
      nodeToIndex' := nodeToIndex[name := nodeIndex];
      nodes' := nodes + [name];
    }
    access := access + [nodeIndex];
    accesses' := accesses[v.uid := access];
    links' := links;
    if |access| >= 2 {
      links' := links + [Link(access[|access| - 2], access[|access| - 1], 1)];
    }
  }

  /** `parseLog(ltsv, endpoints)` (pages/index.tsx:30-92): one pass over
      the lines, updating the nodes, links, errors, name-to-index map and
      each client's index list as the line callback does. The node names
      are the visits' names in first-seen order, the links are the
      transitions in line order and the errors are the rejected lines'
      errors in line order. */
  method ParseLog(ltsv: string, endpoints: seq<Endpoint>) returns (nodes: seq<string>, links: seq<Link>, errors: seq<LogError>)
    ensures var os := Outcomes(Lines(ltsv), endpoints);
      && nodes == Dedup(NameSeq(VisitsOf(os)))
      && Realizes(links, nodes, Transitions(VisitsOf(os)))
      && errors == ErrorsOf(os)
    ensures var vs := VisitsOf(Outcomes(Lines(ltsv), endpoints));
      |links| == |vs| - |DistinctUids(vs)| && Layered(links, nodes)
  {
    var ls := Lines(ltsv);
    nodes, links, errors := [], [], [];
    var nodeToIndex: map<string, nat> := map[];
    var accesses: map<string, seq<nat>> := map[];
    var i := 0;
    while i < |ls|
      invariant 0 <= i <= |ls|
      invariant State(nodes, nodeToIndex, accesses, links) == Build(VisitsOf(Outcomes(ls[..i], endpoints)))
      invariant errors == ErrorsOf(Outcomes(ls[..i], endpoints))
    {
      ghost var os := Outcomes(ls[..i], endpoints);
      OutcomesStep(ls, endpoints, i);
      match ClassifyLine(i + 1, ls[i], endpoints) {
        case Rejected(e) =>
          RejectedLineInert(os, e);
          errors := errors + [e];
        case Accepted(v) =>
          AcceptedLine(os, v);
          BuildStep(VisitsOf(os), v);
          nodes, nodeToIndex, accesses, links := AddVisit(nodes, nodeToIndex, accesses, links, v);
      }
      i := i + 1;
    }
    assert ls[..|ls|] == ls;
    BuildNodes(VisitsOf(Outcomes(ls, endpoints)));
    BuildLinks(VisitsOf(Outcomes(ls, endpoints)));
    TransitionCount(VisitsOf(Outcomes(ls, endpoints)));
    LinksLayered(VisitsOf(Outcomes(ls, endpoints)), links, nodes);
  }
}
