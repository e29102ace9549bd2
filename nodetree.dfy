/**
 * The grouped view of a session's nodes (`NodeTree`): the first `root`,
 * `plan` and `synthesis` node, every `research` and `critique` node in
 * arrival order, the sections shown in their fixed order, and whether the
 * status indicator is shown. Everything here is a read-only projection of
 * the node sequence, so it can be recomputed on every render while nodes
 * are still arriving. A node is an `Events.Event` standing for a JavaScript
 * object; its `type` is the event's tag, and an object without a string
 * `type` has no tag.
 */
module NodeTree {
  import opened Wrappers
  import opened Events

  const RootType: string := "root"
  const PlanType: string := "plan"
  const ResearchType: string := "research"
  const CritiqueType: string := "critique"
  const SynthesisType: string := "synthesis"

  /** The status value for which no indicator is shown. */
  const DoneStatus: string := "done"

  /** `n.type === kind` */
  predicate HasType(n: Event, kind: string) {
    n.tag == Some(kind)
  }

  /** The node types the grouped view knows about. */
  predicate IsKnownType(n: Event) {
    || HasType(n, RootType) || HasType(n, PlanType) || HasType(n, ResearchType)
    || HasType(n, CritiqueType) || HasType(n, SynthesisType)
  }

  // ---------------------------------------------------------------------
  // find and filter
  // ---------------------------------------------------------------------

  /** `nodes.find(n => n.type === kind)`: the first node of that type, if any. */
  function Find(nodes: seq<Event>, kind: string): (r: Option<Event>)
    ensures r.None? <==> forall i :: 0 <= i < |nodes| ==> !HasType(nodes[i], kind)
    ensures r.Some? ==>
      exists i :: 0 <= i < |nodes| && nodes[i] == r.value && HasType(nodes[i], kind) &&
        forall j :: 0 <= j < i ==> !HasType(nodes[j], kind)
  {
    if nodes == [] then None
    else if HasType(nodes[0], kind) then Some(nodes[0])
    else
      var r := Find(nodes[1..], kind);
      assert forall i :: 1 <= i < |nodes| ==> nodes[i] == nodes[1..][i - 1];
      r
  }

  /** `xs` is `ys` with some elements left out, the others in their order. */
  predicate IsSubsequence(xs: seq<Event>, ys: seq<Event>)
    decreases |ys|
  {
    || xs == []
    || (ys != [] && ((xs[0] == ys[0] && IsSubsequence(xs[1..], ys[1..])) || IsSubsequence(xs, ys[1..])))
  }

  /**
   * `nodes.filter(n => n.type === kind)`: an order-preserving subsequence of
   * the nodes, holding exactly the nodes of that type.
   */
  function Filter(nodes: seq<Event>, kind: string): (r: seq<Event>)
    ensures forall i :: 0 <= i < |r| ==> HasType(r[i], kind)
    ensures forall n :: n in r <==> n in nodes && HasType(n, kind)
    ensures IsSubsequence(r, nodes)
  {
    if nodes == [] then []
    else
      var rest := Filter(nodes[1..], kind);
      assert nodes == [nodes[0]] + nodes[1..];
      if HasType(nodes[0], kind) then
        assert ([nodes[0]] + rest)[1..] == rest;
        [nodes[0]] + rest
      else rest
  }

  /**
   * No subsequence made only of nodes of the type is longer than the filter:
   * together with the contract of Filter this says that the filter keeps
   * every matching node, each exactly once.
   */
  lemma {:induction false} FilterIsLongest(xs: seq<Event>, nodes: seq<Event>, kind: string)
    requires IsSubsequence(xs, nodes)
    requires forall i :: 0 <= i < |xs| ==> HasType(xs[i], kind)
    ensures |xs| <= |Filter(nodes, kind)|
    decreases |nodes|
  {
    if xs != [] {
      assert forall i :: 1 <= i < |xs| ==> xs[i] == xs[1..][i - 1];
      if xs[0] == nodes[0] && IsSubsequence(xs[1..], nodes[1..]) {
        FilterIsLongest(xs[1..], nodes[1..], kind);
      } else {
        FilterIsLongest(xs, nodes[1..], kind);
      }
    }
  }

  /** The first match in `a + b` is the first match in `a`, or else in `b`. */
  lemma {:induction false} FindConcat(a: seq<Event>, b: seq<Event>, kind: string)
    ensures Find(a + b, kind) == if Find(a, kind).Some? then Find(a, kind) else Find(b, kind)
    decreases |a|
  {
    if a == [] {
      assert a + b == b;
    } else {
      assert (a + b)[0] == a[0];
      assert (a + b)[1..] == a[1..] + b;
      FindConcat(a[1..], b, kind);
    }
  }

  /** Filtering distributes over concatenation: relative order is kept across both parts. */
  lemma {:induction false} FilterConcat(a: seq<Event>, b: seq<Event>, kind: string)
    ensures Filter(a + b, kind) == Filter(a, kind) + Filter(b, kind)
    decreases |a|
  {
    if a == [] {
      assert a + b == b;
    } else {
      assert (a + b)[0] == a[0];
      assert (a + b)[1..] == a[1..] + b;
      FilterConcat(a[1..], b, kind);
    }
  }

  // ---------------------------------------------------------------------
  // Grouping
  // ---------------------------------------------------------------------

  /** The groups `NodeTree` computes from its `nodes` prop. */
  datatype Groups = Groups(
    root: Option<Event>,
    plan: Option<Event>,
    research: seq<Event>,
    critiques: seq<Event>,
    synthesis: Option<Event>)

  function Group(nodes: seq<Event>): Groups {
    Groups(
      Find(nodes, RootType),
      Find(nodes, PlanType),
      Filter(nodes, ResearchType),
      Filter(nodes, CritiqueType),
      Find(nodes, SynthesisType))
  }

  /** A node of a type the view does not know belongs to no group. */
  lemma UnknownTypeInNoGroup(nodes: seq<Event>, n: Event)
    requires !IsKnownType(n)
    ensures var g := Group(nodes);
      && g.root != Some(n) && g.plan != Some(n) && g.synthesis != Some(n)
      && n !in g.research && n !in g.critiques
  {
  }

  /** Inserting a node of an unknown type anywhere leaves every group as it was. */
  lemma UnknownTypeIgnored(a: seq<Event>, n: Event, b: seq<Event>)
    requires !IsKnownType(n)
    ensures Group(a + [n] + b) == Group(a + b)
  {
    assert a + [n] + b == a + ([n] + b);
    forall kind | kind in {RootType, PlanType, SynthesisType, ResearchType, CritiqueType}
      ensures Find(a + [n] + b, kind) == Find(a + b, kind)
      ensures Filter(a + [n] + b, kind) == Filter(a + b, kind)
    {
      FindConcat(a, [n] + b, kind);
      FindConcat(a, b, kind);
      FindConcat([n], b, kind);
      FilterConcat(a, [n] + b, kind);
      FilterConcat(a, b, kind);
      FilterConcat([n], b, kind);
      assert Filter([n], kind) == [];
    }
  }

  /**
   * The node list only grows while streaming. Appending a node keeps a
   * first match already found; it becomes the first match of its type when
   * there was none; and it extends the research or critique list only when
   * it has that type.
   */
  lemma GroupAppend(nodes: seq<Event>, n: Event)
    ensures var g, h := Group(nodes), Group(nodes + [n]);
      && h.root == (if g.root.Some? then g.root else if HasType(n, RootType) then Some(n) else None)
      && h.plan == (if g.plan.Some? then g.plan else if HasType(n, PlanType) then Some(n) else None)
      && h.synthesis == (if g.synthesis.Some? then g.synthesis else if HasType(n, SynthesisType) then Some(n) else None)
      && h.research == g.research + (if HasType(n, ResearchType) then [n] else [])
      && h.critiques == g.critiques + (if HasType(n, CritiqueType) then [n] else [])
  {
    FindAppend(nodes, n, RootType);
    FindAppend(nodes, n, PlanType);
    FindAppend(nodes, n, SynthesisType);
    FilterAppend(nodes, n, ResearchType);
    FilterAppend(nodes, n, CritiqueType);
  }

  lemma FindAppend(nodes: seq<Event>, n: Event, kind: string)
    ensures Find(nodes + [n], kind) ==
      if Find(nodes, kind).Some? then Find(nodes, kind) else if HasType(n, kind) then Some(n) else None
  {
    FindConcat(nodes, [n], kind);
  }

  lemma FilterAppend(nodes: seq<Event>, n: Event, kind: string)
    ensures Filter(nodes + [n], kind) == Filter(nodes, kind) + (if HasType(n, kind) then [n] else [])
  {
    FilterConcat(nodes, [n], kind);
  }

  // ---------------------------------------------------------------------
  // Sections and the status indicator
  // ---------------------------------------------------------------------

  /** The sections `NodeTree` can show, with the nodes each one renders. */
  datatype Section =
    | PlanSection(plan: Event)
    | ResearchSection(research: seq<Event>)
    | CritiqueSection(critiques: seq<Event>)
    | SynthesisSection(synthesis: Event)

  /** The fixed position of a section in the view. */
  function Rank(s: Section): nat {
    match s
    case PlanSection(_) => 0
    case ResearchSection(_) => 1
    case CritiqueSection(_) => 2
    case SynthesisSection(_) => 3
  }

  /** The sections shown for the groups, in the order the markup lists them. */
  function Sections(g: Groups): seq<Section> {
    PlanPart(g) + ResearchPart(g) + CritiquePart(g) + SynthesisPart(g)
  }

  /** `{plan && (...)}` */
  function PlanPart(g: Groups): seq<Section> {
    if g.plan.Some? then [PlanSection(g.plan.value)] else []
  }

  /** `{research.length > 0 && (...)}` */
  function ResearchPart(g: Groups): seq<Section> {
    if |g.research| > 0 then [ResearchSection(g.research)] else []
  }

  /** `{critiques.length > 0 && (...)}` */
  function CritiquePart(g: Groups): seq<Section> {
    if |g.critiques| > 0 then [CritiqueSection(g.critiques)] else []
  }

  /** `{synthesis && (...)}` */
  function SynthesisPart(g: Groups): seq<Section> {
    if g.synthesis.Some? then [SynthesisSection(g.synthesis.value)] else []
  }

  /**
   * Sections appear in the fixed order plan, research, critique, synthesis,
   * each only when its group is present or non-empty, each rendering
   * exactly its group.
   */
  lemma SectionsInFixedOrder(g: Groups)
    ensures var r := Sections(g);
      && (forall i, j :: 0 <= i < j < |r| ==> Rank(r[i]) < Rank(r[j]))
      && (forall p :: PlanSection(p) in r <==> g.plan == Some(p))
      && (forall xs :: ResearchSection(xs) in r <==> xs == g.research && |xs| > 0)
      && (forall xs :: CritiqueSection(xs) in r <==> xs == g.critiques && |xs| > 0)
      && (forall p :: SynthesisSection(p) in r <==> g.synthesis == Some(p))
  {
    var a, b, c, d := PlanPart(g), ResearchPart(g), CritiquePart(g), SynthesisPart(g);
    var r := a + b + c + d;
    assert forall x :: x in r <==> x in a || x in b || x in c || x in d;
    forall i, j | 0 <= i < j < |r| ensures Rank(r[i]) < Rank(r[j]) {
      RankAt(a, b, c, d, i);
      RankAt(a, b, c, d, j);
    }
  }

  /** The rank of the section at position `i` of the concatenated pieces. */
  lemma RankAt(a: seq<Section>, b: seq<Section>, c: seq<Section>, d: seq<Section>, i: nat)
    requires |a| <= 1 && |b| <= 1 && |c| <= 1 && |d| <= 1
    requires forall x :: x in a ==> Rank(x) == 0
    requires forall x :: x in b ==> Rank(x) == 1
    requires forall x :: x in c ==> Rank(x) == 2
    requires forall x :: x in d ==> Rank(x) == 3
    requires i < |a + b + c + d|
    ensures Rank((a + b + c + d)[i]) ==
      if i < |a| then 0 else if i < |a| + |b| then 1 else if i < |a| + |b| + |c| then 2 else 3
  {
    var r := a + b + c + d;
    if i < |a| { assert r[i] == a[i]; }
    else if i < |a| + |b| { assert r[i] == b[i - |a|]; }
    else if i < |a| + |b| + |c| { assert r[i] == c[i - |a| - |b|]; }
    else { assert r[i] == d[i - |a| - |b| - |c|]; }
  }

  /** The `status` prop as the JavaScript value it is: absent, `null`, or a string. */
  datatype StatusProp = Undefined | Null | Str(text: string)

  /** JavaScript truthiness of the prop: `undefined`, `null` and `''` are falsy. */
  predicate Truthy(v: StatusProp) {
    match v
    case Undefined => false
    case Null => false
    case Str(text) => text != ""
  }

  /**
   * `status && status !== 'done'`: the indicator shows exactly for a
   * non-empty status string other than `done`.
   */
  function ShowsStatus(status: StatusProp): (shown: bool)
    ensures shown <==> status.Str? && status.text != "" && status.text != DoneStatus
  {
    Truthy(status) && status != Str(DoneStatus)
  }

  /** What `NodeTree` shows for its props. */
  datatype View = View(sections: seq<Section>, statusShown: bool)

  function Render(nodes: seq<Event>, status: StatusProp): View {
    View(Sections(Group(nodes)), ShowsStatus(status))
  }

  /** A node of an unknown type, inserted anywhere, changes nothing on screen. */
  lemma RenderIgnoresUnknownNodes(a: seq<Event>, n: Event, b: seq<Event>, status: StatusProp)
    requires !IsKnownType(n)
    ensures Render(a + [n] + b, status) == Render(a + b, status)
  {
    UnknownTypeIgnored(a, n, b);
  }

  /** Whether some node has the type. */
  predicate AnyOfType(nodes: seq<Event>, kind: string) {
    exists i :: 0 <= i < |nodes| && HasType(nodes[i], kind)
  }

  lemma AnyOfTypeUnderPermutation(a: seq<Event>, b: seq<Event>, kind: string)
    requires multiset(a) == multiset(b)
    ensures AnyOfType(a, kind) == AnyOfType(b, kind)
  {
    if AnyOfType(a, kind) {
      var i :| 0 <= i < |a| && HasType(a[i], kind);
      assert a[i] in multiset(b);
      var j :| 0 <= j < |b| && b[j] == a[i];
    }
    if AnyOfType(b, kind) {
      var j :| 0 <= j < |b| && HasType(b[j], kind);
      assert b[j] in multiset(a);
      var i :| 0 <= i < |a| && a[i] == b[j];
    }
  }

  /** The filter keeps every node of the type as often as it occurs, and no other node. */
  lemma {:induction false} FilterKeepsCount(nodes: seq<Event>, kind: string, x: Event)
    ensures multiset(Filter(nodes, kind))[x] == if HasType(x, kind) then multiset(nodes)[x] else 0
    decreases |nodes|
  {
    if nodes != [] {
      FilterKeepsCount(nodes[1..], kind, x);
      assert nodes == [nodes[0]] + nodes[1..];
      assert multiset(nodes) == multiset{nodes[0]} + multiset(nodes[1..]);
    }
  }

  lemma FilterUnderPermutation(a: seq<Event>, b: seq<Event>, kind: string)
    requires multiset(a) == multiset(b)
    ensures multiset(Filter(a, kind)) == multiset(Filter(b, kind))
  {
    forall x ensures multiset(Filter(a, kind))[x] == multiset(Filter(b, kind))[x] {
      FilterKeepsCount(a, kind, x);
      FilterKeepsCount(b, kind, x);
    }
  }

  /**
   * Whatever order the same nodes arrive in, the view shows the same
   * sections (so, by SectionsInFixedOrder, in the same order), and the
   * research and critique sections hold the same nodes.
   */
  lemma SectionsIndependentOfArrivalOrder(a: seq<Event>, b: seq<Event>)
    requires multiset(a) == multiset(b)
    ensures var ga, gb := Group(a), Group(b);
      && ga.plan.Some? == gb.plan.Some?
      && ga.synthesis.Some? == gb.synthesis.Some?
      && multiset(ga.research) == multiset(gb.research)
      && multiset(ga.critiques) == multiset(gb.critiques)
      && (|ga.research| > 0) == (|gb.research| > 0)
      && (|ga.critiques| > 0) == (|gb.critiques| > 0)
  {
    AnyOfTypeUnderPermutation(a, b, PlanType);
    AnyOfTypeUnderPermutation(a, b, SynthesisType);
    FilterUnderPermutation(a, b, ResearchType);
    FilterUnderPermutation(a, b, CritiqueType);
    var ra, rb := Filter(a, ResearchType), Filter(b, ResearchType);
    var ca, cb := Filter(a, CritiqueType), Filter(b, CritiqueType);
    assert |ra| == |multiset(ra)| == |multiset(rb)| == |rb|;
    assert |ca| == |multiset(ca)| == |multiset(cb)| == |cb|;
  }
}
