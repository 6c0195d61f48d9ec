/** The object-relation graph of the editor's overview page (`createLayoutedGraph`):
    one node per object type carrying the type's object attributes, one edge per
    relation, parallel edges fanned out by a lateral offset, and node positions taken
    from a layered layout. The layout library (dagre) is not modelled: it is the
    parameter `layout`, a function from the layout graph to an optional centre per
    node id. */
module ObjectGraph {
  import opened Tables

  const NodeWidth: real := 200.0
  const NodeHeight: real := 100.0
  /** Lateral distance between two parallel edges. */
  const OffsetStep: real := 20.0

  /** One attribute of the summary (`otype` is the type that owns it). */
  datatype Attribute = Attribute(name: string, otype: string, target: string, valueType: string)

  /** One relation of the summary: a qualified link from type `src` to type `target`. */
  datatype Relation = Relation(src: string, target: string, qualifier: string, freq: int)

  /** The summary the graph is built from. `objectTypeCount` lists the entries of the
      type-to-count record in the order `Object.entries` yields them. */
  datatype GraphData = GraphData(
    objectTypeCount: seq<(string, int)>,
    attributes: seq<Attribute>,
    relations: seq<Relation>)

  datatype Point = Point(x: real, y: real)

  datatype Node = Node(id: string, count: int, attributes: seq<Attribute>, position: Point)

  datatype Marker = ArrowClosed

  datatype Edge = Edge(
    id: string, source: string, target: string, labelText: string, offset: real, markerEnd: Marker)

  /** What is handed to the layout library: direction, separations, the nodes with
      their sizes, and the edges (the library keeps one edge per ordered pair). */
  datatype LayoutGraph = LayoutGraph(
    rankdir: string, nodesep: real, ranksep: real,
    nodes: seq<(string, real, real)>, edges: set<(string, string)>)

  /** A layout: the centre it computed for a node id, if any. */
  type Positions = string -> Option<Point>

  /** The layout graph: left to right, separations 100 and 200, one 200 by 100 node
      per type in entry order, and an edge for each ordered pair some relation links. */
  function DagreInput(data: GraphData): (g: LayoutGraph)
    ensures g.rankdir == "LR" && g.nodesep == 100.0 && g.ranksep == 200.0
    ensures |g.nodes| == |data.objectTypeCount|
    ensures forall i :: 0 <= i < |data.objectTypeCount| ==> g.nodes[i] == (data.objectTypeCount[i].0, 200.0, 100.0)
    ensures forall s, t :: (s, t) in g.edges <==> exists r :: r in data.relations && r.src == s && r.target == t
  {
    LayoutGraph("LR", 100.0, 200.0,
      seq(|data.objectTypeCount|, i requires 0 <= i < |data.objectTypeCount| =>
        (data.objectTypeCount[i].0, NodeWidth, NodeHeight)),
      set r | r in data.relations :: (r.src, r.target))
  }

  // ---------------------------------------------------------------------------
  // Nodes

  /** The attributes of type `otype` whose target is "object", in input order. */
  function ObjectAttributes(attributes: seq<Attribute>, otype: string): seq<Attribute>
  {
    Select(attributes, seq(|attributes|, i requires 0 <= i < |attributes| =>
      attributes[i].otype == otype && attributes[i].target == "object"))
  }

  lemma ObjectAttributesExact(attributes: seq<Attribute>, otype: string)
    ensures forall a :: a in ObjectAttributes(attributes, otype) <==>
      a in attributes && a.otype == otype && a.target == "object"
    ensures IsSubsequence(ObjectAttributes(attributes, otype), attributes)
  {
    var mask := seq(|attributes|, i requires 0 <= i < |attributes| =>
      attributes[i].otype == otype && attributes[i].target == "object");
    forall a ensures a in Select(attributes, mask) <==>
      a in attributes && a.otype == otype && a.target == "object"
    {
      SelectMembers(attributes, mask, a);
    }
    SelectIsSubsequence(attributes, mask);
  }

  /** A node before layout: at the origin. */
  function InitialNode(entry: (string, int), attributes: seq<Attribute>): Node
  {
    Node(entry.0, entry.1, ObjectAttributes(attributes, entry.0), Point(0.0, 0.0))
  }

  function BuildNodes(data: GraphData): (nodes: seq<Node>)
    ensures |nodes| == |data.objectTypeCount|
  {
    seq(|data.objectTypeCount|, i requires 0 <= i < |data.objectTypeCount| =>
      InitialNode(data.objectTypeCount[i], data.attributes))
  }

  /** The layout centre moved to the node's top-left corner, when the layout knows
      the node; otherwise the node keeps its position. */
  function Placed(node: Node, positions: Positions): Node
  {
    match positions(node.id)
    case Some(c) => node.(position := Point(c.x - NodeWidth / 2.0, c.y - NodeHeight / 2.0))
    case None => node
  }

  /** Writes the layout positions into the nodes, in place. */
  method ApplyLayout(nodes: array<Node>, positions: Positions)
    modifies nodes
    ensures nodes[..] == seq(nodes.Length, i requires 0 <= i < nodes.Length =>
      Placed(old(nodes[i]), positions))
  {
    var i := 0;
    while i < nodes.Length
      invariant 0 <= i <= nodes.Length
      invariant forall j :: 0 <= j < i ==> nodes[j] == Placed(old(nodes[j]), positions)
      invariant forall j :: i <= j < nodes.Length ==> nodes[j] == old(nodes[j])
    {
      var node := nodes[i];
      var pos := positions(node.id);
      if pos.Some? {
        nodes[i] := node.(position := Point(pos.value.x - NodeWidth / 2.0, pos.value.y - NodeHeight / 2.0));
      }
      i := i + 1;
    }
  }

  // ---------------------------------------------------------------------------
  // Grouping relations by key

  /** The key that decides which relations are drawn as parallel edges. */
  function PairKey(r: Relation): (string, string)
  {
    (r.src, r.target)
  }

  /** The key as the source writes it: a template string `${src}->${target}`. */
  function StringKey(r: Relation): string
  {
    r.src + "->" + r.target
  }

  /** The distinct keys, in the order they first appear. */
  function GroupKeys<K(==)>(rels: seq<Relation>, key: Relation -> K): seq<K>
    decreases |rels|
  {
    if rels == [] then []
    else
      var ks := GroupKeys(rels[..|rels| - 1], key);
      var k := key(rels[|rels| - 1]);
      if k in ks then ks else ks + [k]
  }

  /** The relations with key `k`, in input order. */
  function Members<K(==)>(rels: seq<Relation>, key: Relation -> K, k: K): seq<Relation>
    decreases |rels|
  {
    if rels == [] then []
    else
      var last := rels[|rels| - 1];
      Members(rels[..|rels| - 1], key, k) + (if key(last) == k then [last] else [])
  }

  function GroupMap<K(==)>(rels: seq<Relation>, key: Relation -> K): map<K, seq<Relation>>
  {
    map k | k in GroupKeys(rels, key) :: Members(rels, key, k)
  }

  lemma GroupKeysSnoc<K>(pre: seq<Relation>, r: Relation, key: Relation -> K)
    ensures GroupKeys(pre + [r], key) ==
      if key(r) in GroupKeys(pre, key) then GroupKeys(pre, key) else GroupKeys(pre, key) + [key(r)]
  {
    assert (pre + [r])[..|pre|] == pre;
  }

  lemma MembersSnoc<K>(pre: seq<Relation>, r: Relation, key: Relation -> K, k: K)
    ensures Members(pre + [r], key, k) == Members(pre, key, k) + (if key(r) == k then [r] else [])
  {
    assert (pre + [r])[..|pre|] == pre;
  }

  /** No key occurs twice. */
  predicate NoRepeats<K(==)>(ks: seq<K>)
  {
    forall i, j :: 0 <= i < j < |ks| ==> ks[i] != ks[j]
  }

  lemma NoRepeatsSnoc<K>(pre: seq<K>, k: K)
    ensures NoRepeats(pre + [k]) <==> NoRepeats(pre) && k !in pre
  {
    var ks := pre + [k];
    assert forall i :: 0 <= i < |pre| ==> pre[i] == ks[i];
    assert ks[|pre|] == k;
  }

  /** Each key appears once. */
  lemma {:induction false} GroupKeysDistinct<K>(rels: seq<Relation>, key: Relation -> K)
    ensures NoRepeats(GroupKeys(rels, key))
    decreases |rels|
  {
    if rels != [] {
      var pre, r := rels[..|rels| - 1], rels[|rels| - 1];
      assert rels == pre + [r];
      GroupKeysSnoc(pre, r, key);
      GroupKeysDistinct(pre, key);
      NoRepeatsSnoc(GroupKeys(pre, key), key(r));
    }
  }

  /** The keys are exactly the keys of the relations. */
  lemma {:induction false} GroupKeysExact<K>(rels: seq<Relation>, key: Relation -> K)
    ensures forall k :: k in GroupKeys(rels, key) <==> exists r :: r in rels && key(r) == k
    decreases |rels|
  {
    if rels != [] {
      var pre := rels[..|rels| - 1];
      assert rels == pre + [rels[|rels| - 1]];
      GroupKeysExact(pre, key);
    }
  }

  /** A group holds exactly the relations with its key. */
  lemma {:induction false} MembersExact<K>(rels: seq<Relation>, key: Relation -> K, k: K)
    ensures forall r :: r in Members(rels, key, k) <==> r in rels && key(r) == k
    decreases |rels|
  {
    if rels != [] {
      var pre := rels[..|rels| - 1];
      assert rels == pre + [rels[|rels| - 1]];
      MembersExact(pre, key, k);
    }
  }

  /** A key none of the relations has selects nothing. */
  lemma {:induction false} NoMembers<K>(rels: seq<Relation>, key: Relation -> K, k: K)
    requires k !in GroupKeys(rels, key)
    ensures Members(rels, key, k) == []
    decreases |rels|
  {
    if rels != [] {
      var pre := rels[..|rels| - 1];
      assert rels == pre + [rels[|rels| - 1]];
      GroupKeysSnoc(pre, rels[|rels| - 1], key);
      NoMembers(pre, key, k);
    }
  }

  /** Pushing one more relation onto its key's list. */
  lemma GroupMapSnoc<K>(pre: seq<Relation>, r: Relation, key: Relation -> K)
    ensures var g := GroupMap(pre, key);
      GroupMap(pre + [r], key) == g[key(r) := (if key(r) in g then g[key(r)] else []) + [r]]
  {
    var g := GroupMap(pre, key);
    var g' := GroupMap(pre + [r], key);
    var h := g[key(r) := (if key(r) in g then g[key(r)] else []) + [r]];
    GroupKeysSnoc(pre, r, key);
    assert g'.Keys == h.Keys;
    forall k | k in g' ensures g'[k] == h[k] {
      MembersSnoc(pre, r, key, k);
      if k == key(r) && key(r) !in g {
        NoMembers(pre, key, key(r));
      }
    }
  }

  lemma GroupPrefixStep<K>(rels: seq<Relation>, i: nat, key: Relation -> K)
    requires i < |rels|
    ensures var ks, k := GroupKeys(rels[..i], key), key(rels[i]);
      GroupKeys(rels[..i + 1], key) == if k in ks then ks else ks + [k]
    ensures var g, k := GroupMap(rels[..i], key), key(rels[i]);
      GroupMap(rels[..i + 1], key) == g[k := (if k in g then g[k] else []) + [rels[i]]]
  {
    assert rels[..i + 1] == rels[..i] + [rels[i]];
    GroupKeysSnoc(rels[..i], rels[i], key);
    GroupMapSnoc(rels[..i], rels[i], key);
  }

  /** Builds the groups by pushing each relation onto its key's list, remembering the
      order in which keys were first seen. */
  method GroupRelations<K(==)>(rels: seq<Relation>, key: Relation -> K)
    returns (keys: seq<K>, groups: map<K, seq<Relation>>)
    ensures keys == GroupKeys(rels, key)
    ensures groups == GroupMap(rels, key)
  {
    keys, groups := [], map[];
    var i := 0;
    while i < |rels|
      invariant 0 <= i <= |rels|
      invariant keys == GroupKeys(rels[..i], key)
      invariant groups == GroupMap(rels[..i], key)
    {
      var rel := rels[i];
      var k := key(rel);
      GroupPrefixStep(rels, i, key);
      if k !in groups {
        groups := groups[k := []];
        keys := keys + [k];
      }
      groups := groups[k := groups[k] + [rel]];
      i := i + 1;
    }
    assert rels[..|rels|] == rels;
  }

  // ---------------------------------------------------------------------------
  // Edges

  /** The edge id for counter value `c`: "e-0", "e-1", ... */
  function EdgeId(c: nat): string
  {
    "e-" + DecimalString(c)
  }

  /** The lateral offset of edge `i` in a group of `n` parallel edges. */
  function Offset(i: nat, n: nat): real
  {
    (i as real - (n as real - 1.0) / 2.0) * OffsetStep
  }

  function Offsets(n: nat): (r: seq<real>)
    ensures |r| == n
  {
    seq(n, i requires 0 <= i < n => Offset(i, n))
  }

  /** The edges of one group, whose ids continue the counter from `start`. */
  function GroupEdges(group: seq<Relation>, start: nat): (es: seq<Edge>)
    ensures |es| == |group|
  {
    seq(|group|, i requires 0 <= i < |group| =>
      Edge(EdgeId(start + i), group[i].src, group[i].target, group[i].qualifier,
        Offset(i, |group|), ArrowClosed))
  }

  /** The edges of the groups `ks`, group after group, ids counting up from 0. */
  function EdgesOf<K>(ks: seq<K>, groups: map<K, seq<Relation>>): seq<Edge>
    requires forall k :: k in ks ==> k in groups
    decreases |ks|
  {
    if ks == [] then []
    else
      var pre := EdgesOf(ks[..|ks| - 1], groups);
      pre + GroupEdges(groups[ks[|ks| - 1]], |pre|)
  }

  /** The edges drawn for `rels` when parallel edges are grouped by `key`. */
  function LayoutedEdges<K(==)>(rels: seq<Relation>, key: Relation -> K): seq<Edge>
  {
    EdgesOf(GroupKeys(rels, key), GroupMap(rels, key))
  }

  /** Emits the edges group by group with a running counter for the ids. */
  method BuildEdges<K>(keys: seq<K>, groups: map<K, seq<Relation>>) returns (edges: seq<Edge>)
    requires forall k :: k in keys ==> k in groups
    ensures edges == EdgesOf(keys, groups)
  {
    var counter := 0;
    edges := [];
    var j := 0;
    while j < |keys|
      invariant 0 <= j <= |keys|
      invariant edges == EdgesOf(keys[..j], groups)
      invariant counter == |edges|
    {
      assert keys[..j + 1][..j] == keys[..j];
      var group := groups[keys[j]];
      var center := (|group| as real - 1.0) / 2.0;
      ghost var before := edges;
      var i := 0;
      while i < |group|
        invariant 0 <= i <= |group|
        invariant edges == before + GroupEdges(group, |before|)[..i]
        invariant counter == |edges|
      {
        var offset := (i as real - center) * 20.0;
        edges := edges + [Edge(EdgeId(counter), group[i].src, group[i].target, group[i].qualifier,
          offset, ArrowClosed)];
        counter := counter + 1;
        i := i + 1;
      }
      assert GroupEdges(group, |before|)[..|group|] == GroupEdges(group, |before|);
      j := j + 1;
    }
    assert keys[..|keys|] == keys;
  }

  // ---------------------------------------------------------------------------
  // The whole graph

  datatype Graph = Graph(nodes: seq<Node>, edges: seq<Edge>)

  /** The graph `createLayoutedGraph` returns, given the layout's positions, when
      parallel edges are grouped by `key`. */
  function LayoutedGraph<K(==)>(data: GraphData, positions: Positions, key: Relation -> K): (g: Graph)
    ensures |g.nodes| == |data.objectTypeCount|
    ensures |g.edges| == |data.relations|
    ensures multiset(EdgeTriples(g.edges)) == multiset(RelationTriples(data.relations))
  {
    EdgesMatchRelations(data.relations, key);
    var built := BuildNodes(data);
    Graph(seq(|built|, i requires 0 <= i < |built| => Placed(built[i], positions)),
      LayoutedEdges(data.relations, key))
  }

  /** Builds the nodes, groups the relations, emits the edges, runs the layout and
      writes the positions back into the nodes. */
  method CreateLayoutedGraph(data: GraphData, layout: LayoutGraph -> Positions)
    returns (nodes: seq<Node>, edges: seq<Edge>)
    ensures Graph(nodes, edges) == LayoutedGraph(data, layout(DagreInput(data)), StringKey)
  {
    var built := BuildNodes(data);
    var arr := new Node[|built|](i requires 0 <= i < |built| => built[i]);
    var keys, groups := GroupRelations(data.relations, StringKey);
    edges := BuildEdges(keys, groups);
    ApplyLayout(arr, layout(DagreInput(data)));
    nodes := arr[..];
  }

  // ---------------------------------------------------------------------------
  // Properties of the nodes

  /** One node per entry of the type-count record, in entry order, carrying the
      type's count and exactly its object attributes in input order. */
  lemma NodesOnePerType<K>(data: GraphData, positions: Positions, key: Relation -> K)
    ensures |LayoutedGraph(data, positions, key).nodes| == |data.objectTypeCount|
    ensures forall i :: 0 <= i < |data.objectTypeCount| ==>
      var node := LayoutedGraph(data, positions, key).nodes[i];
      && node.id == data.objectTypeCount[i].0
      && node.count == data.objectTypeCount[i].1
      && IsSubsequence(node.attributes, data.attributes)
      && forall a :: a in node.attributes <==>
           a in data.attributes && a.otype == node.id && a.target == "object"
  {
    forall i | 0 <= i < |data.objectTypeCount|
      ensures var node := LayoutedGraph(data, positions, key).nodes[i];
        && IsSubsequence(node.attributes, data.attributes)
        && forall a :: a in node.attributes <==>
             a in data.attributes && a.otype == node.id && a.target == "object"
    {
      ObjectAttributesExact(data.attributes, data.objectTypeCount[i].0);
    }
  }

  /** A node sits at the layout centre shifted by half its size when the layout
      knows it, and at the origin otherwise. */
  lemma NodePosition<K>(data: GraphData, positions: Positions, key: Relation -> K, i: nat)
    requires i < |data.objectTypeCount|
    ensures var node := LayoutedGraph(data, positions, key).nodes[i];
      match positions(data.objectTypeCount[i].0)
      case Some(c) => node.position == Point(c.x - 100.0, c.y - 50.0)
      case None => node.position == Point(0.0, 0.0)
  {
  }

  // ---------------------------------------------------------------------------
  // Properties of the edges

  function EdgeTriple(e: Edge): (string, string, string)
  {
    (e.source, e.target, e.labelText)
  }

  function RelationTriple(r: Relation): (string, string, string)
  {
    (r.src, r.target, r.qualifier)
  }

  function EdgeTriples(es: seq<Edge>): (ts: seq<(string, string, string)>)
    ensures |ts| == |es|
  {
    seq(|es|, i requires 0 <= i < |es| => EdgeTriple(es[i]))
  }

  function RelationTriples(rs: seq<Relation>): (ts: seq<(string, string, string)>)
    ensures |ts| == |rs|
  {
    seq(|rs|, i requires 0 <= i < |rs| => RelationTriple(rs[i]))
  }

  lemma EdgeTriplesConcat(a: seq<Edge>, b: seq<Edge>)
    ensures EdgeTriples(a + b) == EdgeTriples(a) + EdgeTriples(b)
  {
  }

  lemma RelationTriplesConcat(a: seq<Relation>, b: seq<Relation>)
    ensures RelationTriples(a + b) == RelationTriples(a) + RelationTriples(b)
  {
  }

  /** The members of the groups `ks`, group after group. */
  function Flatten<K(==)>(ks: seq<K>, rels: seq<Relation>, key: Relation -> K): seq<Relation>
    decreases |ks|
  {
    if ks == [] then [] else Flatten(ks[..|ks| - 1], rels, key) + Members(rels, key, ks[|ks| - 1])
  }

  lemma {:induction false} EdgesOfTriples<K>(ks: seq<K>, rels: seq<Relation>, key: Relation -> K)
    requires forall k :: k in ks ==> k in GroupKeys(rels, key)
    ensures EdgeTriples(EdgesOf(ks, GroupMap(rels, key))) == RelationTriples(Flatten(ks, rels, key))
    decreases |ks|
  {
    if ks != [] {
      var pre, k := ks[..|ks| - 1], ks[|ks| - 1];
      assert forall x :: x in pre ==> x in ks;
      EdgesOfTriples(pre, rels, key);
      var a := EdgesOf(pre, GroupMap(rels, key));
      var ms := Members(rels, key, k);
      var b := GroupEdges(ms, |a|);
      EdgeTriplesConcat(a, b);
      RelationTriplesConcat(Flatten(pre, rels, key), ms);
      assert EdgeTriples(b) == RelationTriples(ms);
    }
  }

  /** Appending a relation adds it to the flattened groups exactly when its key is
      one of the groups. */
  lemma {:induction false} FlattenAppend<K>(ks: seq<K>, rels: seq<Relation>, key: Relation -> K, r: Relation)
    requires NoRepeats(ks)
    ensures multiset(RelationTriples(Flatten(ks, rels + [r], key)))
      == multiset(RelationTriples(Flatten(ks, rels, key)))
         + (if key(r) in ks then multiset{RelationTriple(r)} else multiset{})
    decreases |ks|
  {
    if ks != [] {
      var pre, k := ks[..|ks| - 1], ks[|ks| - 1];
      assert ks == pre + [k];
      NoRepeatsSnoc(pre, k);
      FlattenAppend(pre, rels, key, r);
      FlattenAppendStep(pre, k, rels, key, r);
    }
  }

  lemma FlattenAppendStep<K>(pre: seq<K>, k: K, rels: seq<Relation>, key: Relation -> K, r: Relation)
    requires k !in pre
    requires multiset(RelationTriples(Flatten(pre, rels + [r], key)))
      == multiset(RelationTriples(Flatten(pre, rels, key)))
         + (if key(r) in pre then multiset{RelationTriple(r)} else multiset{})
    ensures multiset(RelationTriples(Flatten(pre + [k], rels + [r], key)))
      == multiset(RelationTriples(Flatten(pre + [k], rels, key)))
         + (if key(r) in pre + [k] then multiset{RelationTriple(r)} else multiset{})
  {
    var m0 := Members(rels, key, k);
    var extra := if key(r) == k then [r] else [];
    var f0, f1 := Flatten(pre, rels + [r], key), Flatten(pre, rels, key);
    FlattenSnoc(pre, k, rels + [r], key);
    FlattenSnoc(pre, k, rels, key);
    MembersSnoc(rels, r, key, k);
    TriplesConcat(f0, m0 + extra);
    TriplesConcat(m0, extra);
    TriplesConcat(f1, m0);
    RelationTriplesAtMostOne(extra, r);
  }

  lemma FlattenSnoc<K>(pre: seq<K>, k: K, rels: seq<Relation>, key: Relation -> K)
    ensures Flatten(pre + [k], rels, key) == Flatten(pre, rels, key) + Members(rels, key, k)
  {
    assert (pre + [k])[..|pre|] == pre;
  }

  lemma TriplesConcat(a: seq<Relation>, b: seq<Relation>)
    ensures multiset(RelationTriples(a + b)) == multiset(RelationTriples(a)) + multiset(RelationTriples(b))
  {
    RelationTriplesConcat(a, b);
  }

  /** Taking the groups in key order loses and duplicates no relation. */
  lemma {:induction false} FlattenIsPermutation<K>(rels: seq<Relation>, key: Relation -> K)
    ensures multiset(RelationTriples(Flatten(GroupKeys(rels, key), rels, key)))
      == multiset(RelationTriples(rels))
    decreases |rels|
  {
    if rels != [] {
      var pre, r := rels[..|rels| - 1], rels[|rels| - 1];
      assert rels == pre + [r];
      FlattenIsPermutation(pre, key);
      FlattenPermutationStep(pre, r, key);
    }
  }

  lemma FlattenPermutationStep<K>(pre: seq<Relation>, r: Relation, key: Relation -> K)
    requires multiset(RelationTriples(Flatten(GroupKeys(pre, key), pre, key)))
      == multiset(RelationTriples(pre))
    ensures multiset(RelationTriples(Flatten(GroupKeys(pre + [r], key), pre + [r], key)))
      == multiset(RelationTriples(pre + [r]))
  {
    GroupKeysSnoc(pre, r, key);
    RelationTriplesSnoc(pre, r);
    if key(r) in GroupKeys(pre, key) {
      FlattenKnownKey(pre, r, key);
    } else {
      FlattenUnknownKey(pre, r, key);
    }
  }

  lemma RelationTriplesAtMostOne(rs: seq<Relation>, r: Relation)
    requires rs == [] || rs == [r]
    ensures multiset(RelationTriples(rs)) == if rs == [r] then multiset{RelationTriple(r)} else multiset{}
  {
    if rs == [r] {
      assert RelationTriples(rs) == [RelationTriple(r)];
    }
  }

  lemma RelationTriplesSnoc(pre: seq<Relation>, r: Relation)
    ensures multiset(RelationTriples(pre + [r])) == multiset(RelationTriples(pre)) + multiset{RelationTriple(r)}
  {
    RelationTriplesConcat(pre, [r]);
  }

  /** A relation whose key is already grouped joins the flattened groups. */
  lemma FlattenKnownKey<K>(pre: seq<Relation>, r: Relation, key: Relation -> K)
    requires multiset(RelationTriples(Flatten(GroupKeys(pre, key), pre, key)))
      == multiset(RelationTriples(pre))
    requires key(r) in GroupKeys(pre, key)
    ensures multiset(RelationTriples(Flatten(GroupKeys(pre, key), pre + [r], key)))
      == multiset(RelationTriples(pre)) + multiset{RelationTriple(r)}
  {
    GroupKeysDistinct(pre, key);
    FlattenAppend(GroupKeys(pre, key), pre, key, r);
  }

  /** A relation with a new key leaves the old groups as they were... */
  lemma FlattenOldGroups<K>(pre: seq<Relation>, r: Relation, key: Relation -> K)
    requires key(r) !in GroupKeys(pre, key)
    ensures multiset(RelationTriples(Flatten(GroupKeys(pre, key), pre + [r], key)))
      == multiset(RelationTriples(Flatten(GroupKeys(pre, key), pre, key)))
  {
    GroupKeysDistinct(pre, key);
    FlattenAppend(GroupKeys(pre, key), pre, key, r);
  }

  /** ... and forms a group of its own, appended last. */
  lemma FlattenUnknownKey<K>(pre: seq<Relation>, r: Relation, key: Relation -> K)
    requires multiset(RelationTriples(Flatten(GroupKeys(pre, key), pre, key)))
      == multiset(RelationTriples(pre))
    requires key(r) !in GroupKeys(pre, key)
    ensures multiset(RelationTriples(Flatten(GroupKeys(pre, key) + [key(r)], pre + [r], key)))
      == multiset(RelationTriples(pre)) + multiset{RelationTriple(r)}
  {
    var ks := GroupKeys(pre, key);
    var f := Flatten(ks, pre + [r], key);
    FlattenOldGroups(pre, r, key);
    FlattenNewKey(ks, pre, key, r);
    RelationTriplesSnoc(f, r);
  }

  lemma FlattenNewKey<K>(ks: seq<K>, pre: seq<Relation>, key: Relation -> K, r: Relation)
    requires key(r) !in GroupKeys(pre, key)
    ensures Flatten(ks + [key(r)], pre + [r], key) == Flatten(ks, pre + [r], key) + [r]
  {
    NoMembers(pre, key, key(r));
    MembersSnoc(pre, r, key, key(r));
    var ks' := ks + [key(r)];
    assert ks'[..|ks|] == ks;
  }

  /** Exactly one edge per relation: the edges carry the relations' source, target
      and qualifier, each as often as it occurs, none dropped, whatever the key. */
  lemma EdgesMatchRelations<K>(rels: seq<Relation>, key: Relation -> K)
    ensures |LayoutedEdges(rels, key)| == |rels|
    ensures multiset(EdgeTriples(LayoutedEdges(rels, key))) == multiset(RelationTriples(rels))
  {
    GroupKeysExact(rels, key);
    EdgesOfTriples(GroupKeys(rels, key), rels, key);
    FlattenIsPermutation(rels, key);
    assert |multiset(EdgeTriples(LayoutedEdges(rels, key)))| == |multiset(RelationTriples(rels))|;
  }

  /** A relation whose endpoints are not object types still gets its edge. */
  lemma DanglingRelationKept<K>(data: GraphData, positions: Positions, key: Relation -> K, r: Relation)
    requires r in data.relations
    ensures exists e :: (e in LayoutedGraph(data, positions, key).edges &&
      e.source == r.src && e.target == r.target && e.labelText == r.qualifier)
  {
    var edges := LayoutedGraph(data, positions, key).edges;
    EdgesMatchRelations(data.relations, key);
    var i :| 0 <= i < |data.relations| && data.relations[i] == r;
    assert RelationTriples(data.relations)[i] == RelationTriple(r);
    assert RelationTriple(r) in multiset(RelationTriples(data.relations));
    assert RelationTriple(r) in EdgeTriples(edges);
    var j :| 0 <= j < |edges| && EdgeTriples(edges)[j] == RelationTriple(r);
    assert edges[j] in edges;
  }

  lemma {:induction false} EdgesOfIds<K>(ks: seq<K>, groups: map<K, seq<Relation>>)
    requires forall k :: k in ks ==> k in groups
    ensures forall j :: 0 <= j < |EdgesOf(ks, groups)| ==> EdgesOf(ks, groups)[j].id == EdgeId(j)
    decreases |ks|
  {
    if ks != [] {
      EdgesOfIds(ks[..|ks| - 1], groups);
    }
  }

  /** Edge ids are "e-0", "e-1", ... in output order, so no two edges share an id. */
  lemma EdgeIdsSequential<K>(data: GraphData, positions: Positions, key: Relation -> K)
    ensures var edges := LayoutedGraph(data, positions, key).edges;
      && (forall j :: 0 <= j < |edges| ==> edges[j].id == "e-" + DecimalString(j))
      && (forall i, j :: 0 <= i < j < |edges| ==> edges[i].id != edges[j].id)
  {
    var edges := LayoutedGraph(data, positions, key).edges;
    GroupKeysExact(data.relations, key);
    EdgesOfIds(GroupKeys(data.relations, key), GroupMap(data.relations, key));
    forall i, j | 0 <= i < j < |edges| ensures edges[i].id != edges[j].id {
      if edges[i].id == edges[j].id {
        assert EdgeId(i)[2..] == DecimalString(i);
        assert EdgeId(j)[2..] == DecimalString(j);
        DecimalStringInjective(i, j);
      }
    }
  }

  /** The edges from `src` to `target`, in order. */
  function Between(es: seq<Edge>, src: string, target: string): seq<Edge>
    decreases |es|
  {
    if es == [] then []
    else
      var last := es[|es| - 1];
      Between(es[..|es| - 1], src, target)
        + (if last.source == src && last.target == target then [last] else [])
  }

  lemma {:induction false} BetweenConcat(a: seq<Edge>, b: seq<Edge>, src: string, target: string)
    ensures Between(a + b, src, target) == Between(a, src, target) + Between(b, src, target)
    decreases |b|
  {
    if b != [] {
      var ab := a + b;
      assert ab[..|ab| - 1] == a + b[..|b| - 1];
      assert ab[|ab| - 1] == b[|b| - 1];
      BetweenConcat(a, b[..|b| - 1], src, target);
    } else {
      assert a + b == a;
    }
  }

  lemma {:induction false} BetweenAll(es: seq<Edge>, src: string, target: string)
    requires forall e :: e in es ==> e.source == src && e.target == target
    ensures Between(es, src, target) == es
    decreases |es|
  {
    if es != [] {
      assert es == es[..|es| - 1] + [es[|es| - 1]];
      BetweenAll(es[..|es| - 1], src, target);
    }
  }

  lemma {:induction false} BetweenNone(es: seq<Edge>, src: string, target: string)
    requires forall e :: e in es ==> e.source != src || e.target != target
    ensures Between(es, src, target) == []
    decreases |es|
  {
    if es != [] {
      assert es == es[..|es| - 1] + [es[|es| - 1]];
      BetweenNone(es[..|es| - 1], src, target);
    }
  }

  /** The edges of the group with key `k` all run along `k`. */
  lemma GroupEdgesAlong(rels: seq<Relation>, k: (string, string), start: nat)
    ensures forall e :: e in GroupEdges(Members(rels, PairKey, k), start) ==>
      e.source == k.0 && e.target == k.1
  {
    MembersExact(rels, PairKey, k);
    var ms := Members(rels, PairKey, k);
    forall e | e in GroupEdges(ms, start) ensures e.source == k.0 && e.target == k.1 {
      var i :| 0 <= i < |ms| && GroupEdges(ms, start)[i] == e;
      assert ms[i] in ms;
    }
  }

  /** A group contributes all its edges to the pair it runs along, none to others. */
  lemma BetweenGroup(rels: seq<Relation>, k: (string, string), start: nat, src: string, target: string)
    ensures var g := GroupEdges(Members(rels, PairKey, k), start);
      Between(g, src, target) == if k == (src, target) then g else []
  {
    var g := GroupEdges(Members(rels, PairKey, k), start);
    GroupEdgesAlong(rels, k, start);
    if k == (src, target) {
      BetweenAll(g, src, target);
    } else {
      BetweenNone(g, src, target);
    }
  }

  lemma {:induction false} EdgesOfBetween(ks: seq<(string, string)>, rels: seq<Relation>, src: string, target: string)
    requires NoRepeats(ks)
    requires forall k :: k in ks ==> k in GroupKeys(rels, PairKey)
    ensures var b := Between(EdgesOf(ks, GroupMap(rels, PairKey)), src, target);
      var ms := Members(rels, PairKey, (src, target));
      if (src, target) in ks then exists start: nat :: b == GroupEdges(ms, start)
      else b == []
    decreases |ks|
  {
    if ks != [] {
      var pre, k := ks[..|ks| - 1], ks[|ks| - 1];
      assert ks == pre + [k];
      NoRepeatsSnoc(pre, k);
      assert forall x :: x in pre ==> x in ks;
      EdgesOfBetween(pre, rels, src, target);
      EdgesOfBetweenStep(pre, k, rels, src, target);
    }
  }

  lemma EdgesOfBetweenStep(pre: seq<(string, string)>, k: (string, string), rels: seq<Relation>,
                           src: string, target: string)
    requires k !in pre
    requires forall x :: x in pre + [k] ==> x in GroupKeys(rels, PairKey)
    requires var b := Between(EdgesOf(pre, GroupMap(rels, PairKey)), src, target);
      var ms := Members(rels, PairKey, (src, target));
      if (src, target) in pre then exists start: nat :: b == GroupEdges(ms, start)
      else b == []
    ensures var b := Between(EdgesOf(pre + [k], GroupMap(rels, PairKey)), src, target);
      var ms := Members(rels, PairKey, (src, target));
      if (src, target) in pre + [k] then exists start: nat :: b == GroupEdges(ms, start)
      else b == []
  {
    var ks := pre + [k];
    assert ks[..|ks| - 1] == pre;
    var a := EdgesOf(pre, GroupMap(rels, PairKey));
    var g := GroupEdges(Members(rels, PairKey, k), |a|);
    assert EdgesOf(ks, GroupMap(rels, PairKey)) == a + g;
    BetweenConcat(a, g, src, target);
    BetweenGroup(rels, k, |a|, src, target);
    if k == (src, target) {
      assert Between(a + g, src, target) == g;
    }
  }

  /** The parallel edges from `src` to `target` are exactly that pair's relations, in
      input order, fanned out by the offsets of a group of their size. */
  lemma GroupOffsets(data: GraphData, positions: Positions, src: string, target: string)
    ensures var b := Between(LayoutedGraph(data, positions, PairKey).edges, src, target);
      var ms := Members(data.relations, PairKey, (src, target));
      && |b| == |ms|
      && (forall i :: 0 <= i < |b| ==> b[i].offset == Offsets(|ms|)[i])
      && EdgeTriples(b) == RelationTriples(ms)
      && (forall r :: r in ms <==> r in data.relations && r.src == src && r.target == target)
  {
    var rels := data.relations;
    GroupKeysDistinct(rels, PairKey);
    GroupKeysExact(rels, PairKey);
    EdgesOfBetween(GroupKeys(rels, PairKey), rels, src, target);
    if (src, target) !in GroupKeys(rels, PairKey) {
      NoMembers(rels, PairKey, (src, target));
    }
    MembersExact(rels, PairKey, (src, target));
  }

  // ---------------------------------------------------------------------------
  // Properties of the offsets

  function SumReals(s: seq<real>): real
    decreases |s|
  {
    if s == [] then 0.0 else SumReals(s[..|s| - 1]) + s[|s| - 1]
  }

  lemma {:induction false} PartialOffsetSum(n: nat, m: nat)
    requires m <= n
    ensures SumReals(Offsets(n)[..m]) == 10.0 * (m as real) * (m as real - n as real)
    decreases m
  {
    if m > 0 {
      PartialOffsetSum(n, m - 1);
      assert Offsets(n)[..m][..m - 1] == Offsets(n)[..m - 1];
      var k := (m - 1) as real;
      assert Offsets(n)[m - 1] == (k - (n as real - 1.0) / 2.0) * 20.0;
      calc {
        SumReals(Offsets(n)[..m]);
        10.0 * k * (k - n as real) + (k - (n as real - 1.0) / 2.0) * 20.0;
        10.0 * (k + 1.0) * (k + 1.0 - n as real);
      }
    }
  }

  /** The offsets of a group of `n` are centred on zero: they sum to zero, increase
      strictly, mirror each other, span `(n - 1) * 20`, and a single edge gets 0. */
  lemma OffsetsCentred(n: nat)
    ensures SumReals(Offsets(n)) == 0.0
    ensures forall i, j :: 0 <= i < j < n ==> Offsets(n)[i] < Offsets(n)[j]
    ensures forall i :: 0 <= i < n ==> Offsets(n)[i] == -Offsets(n)[n - 1 - i]
    ensures n >= 1 ==> Offsets(n)[n - 1] - Offsets(n)[0] == (n as real - 1.0) * OffsetStep
    ensures Offsets(1) == [0.0]
  {
    PartialOffsetSum(n, n);
    assert Offsets(n)[..n] == Offsets(n);
  }

  /** When every relation has the same key, there is one group holding them all. */
  lemma {:induction false} SameKey<K>(rels: seq<Relation>, key: Relation -> K, k: K)
    requires rels != []
    requires forall r :: r in rels ==> key(r) == k
    ensures GroupKeys(rels, key) == [k]
    ensures Members(rels, key, k) == rels
    decreases |rels|
  {
    var pre, r := rels[..|rels| - 1], rels[|rels| - 1];
    assert rels == pre + [r];
    GroupKeysSnoc(pre, r, key);
    MembersSnoc(pre, r, key, k);
    if pre == [] {
      assert GroupKeys(pre, key) == [] && Members(pre, key, k) == [];
    } else {
      assert forall x :: x in pre ==> x in rels;
      SameKey(pre, key, k);
    }
  }

  lemma SingleGroupEdges<K>(rels: seq<Relation>, key: Relation -> K, k: K)
    requires rels != []
    requires forall r :: r in rels ==> key(r) == k
    ensures LayoutedEdges(rels, key) == GroupEdges(rels, 0)
  {
    SameKey(rels, key, k);
    assert GroupMap(rels, key)[k] == rels;
    var ks := [k];
    assert ks[..0] == [];
    assert EdgesOf(ks, GroupMap(rels, key)) == EdgesOf([], GroupMap(rels, key)) + GroupEdges(rels, 0);
  }

  /** Three relations between the same two types fan out as -20, 0, 20. */
  lemma ThreeParallelEdges(a: string, b: string)
    ensures var rels := [Relation(a, b, "q1", 1), Relation(a, b, "q2", 1), Relation(a, b, "q3", 1)];
      var es := LayoutedEdges(rels, PairKey);
      |es| == 3 && es[0].offset == -20.0 && es[1].offset == 0.0 && es[2].offset == 20.0
      && es[0].labelText == "q1" && es[1].labelText == "q2" && es[2].labelText == "q3"
  {
    var rels := [Relation(a, b, "q1", 1), Relation(a, b, "q2", 1), Relation(a, b, "q3", 1)];
    SingleGroupEdges(rels, PairKey, (a, b));
  }

  // ---------------------------------------------------------------------------
  // Two keys that group alike

  /** Two keys put the same relations of `rels` together. */
  predicate SameGrouping<K1(==), K2(==)>(rels: seq<Relation>, key1: Relation -> K1, key2: Relation -> K2)
  {
    forall r, r' :: r in rels && r' in rels ==> (key1(r) == key1(r') <==> key2(r) == key2(r'))
  }

  /** Under keys that group alike, the groups of `r0`'s key hold the same relations. */
  lemma {:induction false} MembersAgree<K1, K2>(rels: seq<Relation>, key1: Relation -> K1, key2: Relation -> K2, r0: Relation)
    requires forall r :: r in rels ==> (key1(r) == key1(r0) <==> key2(r) == key2(r0))
    ensures Members(rels, key1, key1(r0)) == Members(rels, key2, key2(r0))
    decreases |rels|
  {
    if rels != [] {
      var pre := rels[..|rels| - 1];
      assert forall r :: r in pre ==> r in rels;
      MembersAgree(pre, key1, key2, r0);
    }
  }

  /** Under keys that group alike, the two key lists have one entry per group, in the
      same order, the `i`-th entries being the two keys of one relation. */
  lemma {:induction false} GroupKeysAgree<K1, K2>(rels: seq<Relation>, key1: Relation -> K1, key2: Relation -> K2)
    requires SameGrouping(rels, key1, key2)
    ensures |GroupKeys(rels, key1)| == |GroupKeys(rels, key2)|
    ensures forall i :: 0 <= i < |GroupKeys(rels, key1)| ==>
      exists r0 :: r0 in rels && GroupKeys(rels, key1)[i] == key1(r0) && GroupKeys(rels, key2)[i] == key2(r0)
    decreases |rels|
  {
    if rels != [] {
      var pre, r := rels[..|rels| - 1], rels[|rels| - 1];
      assert rels == pre + [r];
      assert forall x :: x in pre ==> x in rels;
      GroupKeysAgree(pre, key1, key2);
      KnownKeyAgrees(pre, r, key1, key2);
      GroupKeysAgreeStep(pre, r, key1, key2);
    }
  }

  lemma GroupKeysAgreeStep<K1, K2>(pre: seq<Relation>, r: Relation, key1: Relation -> K1, key2: Relation -> K2)
    requires key1(r) in GroupKeys(pre, key1) <==> key2(r) in GroupKeys(pre, key2)
    requires |GroupKeys(pre, key1)| == |GroupKeys(pre, key2)|
    requires forall i :: 0 <= i < |GroupKeys(pre, key1)| ==>
      exists r0 :: r0 in pre && GroupKeys(pre, key1)[i] == key1(r0) && GroupKeys(pre, key2)[i] == key2(r0)
    ensures |GroupKeys(pre + [r], key1)| == |GroupKeys(pre + [r], key2)|
    ensures forall i :: 0 <= i < |GroupKeys(pre + [r], key1)| ==>
      exists r0 :: r0 in pre + [r] && GroupKeys(pre + [r], key1)[i] == key1(r0) && GroupKeys(pre + [r], key2)[i] == key2(r0)
  {
    var ks1, ks2 := GroupKeys(pre, key1), GroupKeys(pre, key2);
    GroupKeysSnoc(pre, r, key1);
    GroupKeysSnoc(pre, r, key2);
    if key1(r) !in ks1 {
      var n := |ks1|;
      forall i | 0 <= i < n + 1
        ensures exists r0 :: r0 in pre + [r] && (ks1 + [key1(r)])[i] == key1(r0) && (ks2 + [key2(r)])[i] == key2(r0)
      {
        if i < n {
          var r0 :| r0 in pre && ks1[i] == key1(r0) && ks2[i] == key2(r0);
          assert r0 in pre + [r];
        } else {
          assert r in pre + [r];
        }
      }
    } else {
      forall i | 0 <= i < |ks1|
        ensures exists r0 :: r0 in pre + [r] && ks1[i] == key1(r0) && ks2[i] == key2(r0)
      {
        var r0 :| r0 in pre && ks1[i] == key1(r0) && ks2[i] == key2(r0);
        assert r0 in pre + [r];
      }
    }
  }

  /** A new relation's key is already known under one key exactly when it is under the other. */
  lemma KnownKeyAgrees<K1, K2>(pre: seq<Relation>, r: Relation, key1: Relation -> K1, key2: Relation -> K2)
    requires SameGrouping(pre + [r], key1, key2)
    ensures key1(r) in GroupKeys(pre, key1) <==> key2(r) in GroupKeys(pre, key2)
  {
    GroupKeysExact(pre, key1);
    GroupKeysExact(pre, key2);
    assert r in pre + [r];
    assert forall x :: x in pre ==> x in pre + [r];
  }

  /** Key lists whose `i`-th groups agree give the same edges. */
  lemma {:induction false} EdgesOfAgree<K1, K2>(ks1: seq<K1>, g1: map<K1, seq<Relation>>, ks2: seq<K2>, g2: map<K2, seq<Relation>>)
    requires |ks1| == |ks2|
    requires forall k :: k in ks1 ==> k in g1
    requires forall k :: k in ks2 ==> k in g2
    requires forall i :: 0 <= i < |ks1| ==> g1[ks1[i]] == g2[ks2[i]]
    ensures EdgesOf(ks1, g1) == EdgesOf(ks2, g2)
    decreases |ks1|
  {
    if ks1 != [] {
      EdgesOfAgree(ks1[..|ks1| - 1], g1, ks2[..|ks2| - 1], g2);
    }
  }

  /** Keys that group alike draw the same edges. */
  lemma LayoutedEdgesAgree<K1, K2>(rels: seq<Relation>, key1: Relation -> K1, key2: Relation -> K2)
    requires SameGrouping(rels, key1, key2)
    ensures LayoutedEdges(rels, key1) == LayoutedEdges(rels, key2)
  {
    var ks1, ks2 := GroupKeys(rels, key1), GroupKeys(rels, key2);
    GroupKeysAgree(rels, key1, key2);
    forall i | 0 <= i < |ks1| ensures GroupMap(rels, key1)[ks1[i]] == GroupMap(rels, key2)[ks2[i]] {
      var r0 :| r0 in rels && ks1[i] == key1(r0) && ks2[i] == key2(r0);
      MembersAgree(rels, key1, key2, r0);
    }
    EdgesOfAgree(ks1, GroupMap(rels, key1), ks2, GroupMap(rels, key2));
  }

  /** No two relations with different ordered pairs share a string key: then the
      string key groups like the pair. */
  predicate StringKeyFaithful(rels: seq<Relation>)
  {
    forall r, r' :: r in rels && r' in rels && StringKey(r) == StringKey(r') ==> PairKey(r) == PairKey(r')
  }

  /** The graph as written fans out exactly the relations of one ordered pair, as the
      pair key does, whenever no two pairs share a string key. */
  lemma GroupOffsetsAsWritten(data: GraphData, positions: Positions, src: string, target: string)
    requires StringKeyFaithful(data.relations)
    ensures var b := Between(LayoutedGraph(data, positions, StringKey).edges, src, target);
      var ms := Members(data.relations, PairKey, (src, target));
      && |b| == |ms|
      && (forall i :: 0 <= i < |b| ==> b[i].offset == Offsets(|ms|)[i])
      && EdgeTriples(b) == RelationTriples(ms)
  {
    LayoutedEdgesAgree(data.relations, StringKey, PairKey);
    GroupOffsets(data, positions, src, target);
  }

  // ---------------------------------------------------------------------------
  // The key as written

  /** Grouping by the template string `${src}->${target}` merges two different
      ordered pairs when a type name contains "->": the relations "a->b" to "c" and
      "a" to "b->c" share the key "a->b->c", so they are fanned out as -10 and 10
      although they connect different nodes. Grouping by the pair gives each 0. */
  lemma StringKeyMergesDistinctPairs()
    ensures var r1, r2 := Relation("a->b", "c", "q", 1), Relation("a", "b->c", "q", 1);
      && PairKey(r1) != PairKey(r2)
      && StringKey(r1) == StringKey(r2)
      && |LayoutedEdges([r1, r2], StringKey)| == 2
      && LayoutedEdges([r1, r2], StringKey)[0].offset == -10.0
      && LayoutedEdges([r1, r2], StringKey)[1].offset == 10.0
      && |LayoutedEdges([r1, r2], PairKey)| == 2
      && LayoutedEdges([r1, r2], PairKey)[0].offset == 0.0
      && LayoutedEdges([r1, r2], PairKey)[1].offset == 0.0
  {
    StringKeyFansOut(Relation("a->b", "c", "q", 1), Relation("a", "b->c", "q", 1));
    PairKeySeparates(Relation("a->b", "c", "q", 1), Relation("a", "b->c", "q", 1));
  }

  /** Two relations under one string key form one group of two, fanned out. */
  lemma StringKeyFansOut(r1: Relation, r2: Relation)
    requires r1 == Relation("a->b", "c", "q", 1) && r2 == Relation("a", "b->c", "q", 1)
    ensures StringKey(r1) == StringKey(r2)
    ensures |LayoutedEdges([r1, r2], StringKey)| == 2
    ensures LayoutedEdges([r1, r2], StringKey)[0].offset == -10.0
    ensures LayoutedEdges([r1, r2], StringKey)[1].offset == 10.0
  {
    assert StringKey(r1) == "a->b->c" == StringKey(r2);
    SingleGroupEdges([r1, r2], StringKey, "a->b->c");
  }

  /** The same two relations under the pair key form two groups of one. */
  lemma PairKeySeparates(r1: Relation, r2: Relation)
    requires r1 == Relation("a->b", "c", "q", 1) && r2 == Relation("a", "b->c", "q", 1)
    ensures PairKey(r1) != PairKey(r2)
    ensures |LayoutedEdges([r1, r2], PairKey)| == 2
    ensures LayoutedEdges([r1, r2], PairKey)[0].offset == 0.0
    ensures LayoutedEdges([r1, r2], PairKey)[1].offset == 0.0
  {
    var rels := [r1, r2];
    var k1, k2 := PairKey(r1), PairKey(r2);
    assert k1 != k2 by { assert |r1.src| != |r2.src|; }
    var g := GroupMap(rels, PairKey);
    TwoGroups(r1, r2, PairKey);
    TwoGroupEdges(k1, k2, g, r1, r2);
  }

  /** Two relations with different keys form two groups of one. */
  lemma TwoGroups<K>(r1: Relation, r2: Relation, key: Relation -> K)
    requires key(r1) != key(r2)
    ensures GroupKeys([r1, r2], key) == [key(r1), key(r2)]
    ensures GroupMap([r1, r2], key)[key(r1)] == [r1] && GroupMap([r1, r2], key)[key(r2)] == [r2]
  {
    var k1, k2 := key(r1), key(r2);
    assert [r1, r2] == [r1] + [r2];
    SameKey([r1], key, k1);
    GroupKeysSnoc([r1], r2, key);
    MembersSnoc([r1], r2, key, k1);
    assert [r1][..0] == [];
    assert Members([r1], key, k2) == [];
    MembersSnoc([r1], r2, key, k2);
  }

  lemma TwoGroupEdges(k1: (string, string), k2: (string, string), g: map<(string, string), seq<Relation>>,
                      r1: Relation, r2: Relation)
    requires k1 in g && k2 in g && g[k1] == [r1] && g[k2] == [r2]
    ensures EdgesOf([k1, k2], g) == GroupEdges([r1], 0) + GroupEdges([r2], 1)
  {
    var ks := [k1, k2];
    assert ks[..1] == [k1] && ks[..1][..0] == [];
    assert EdgesOf([k1], g) == GroupEdges([r1], 0);
  }
}
