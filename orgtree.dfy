/**
 * The organisation chart of script-orgchart.js built from its own
 * spreadsheet: the row filter of `parseOrgChartFile`, the tree that
 * `buildOrgHierarchyFromFile` links by supervisor id, and
 * `matchProfessorDataToOrgChart`, which attaches the people of a report to
 * the tree nodes whose name is a report position.
 *
 * The tree is kept as JavaScript keeps it, but with ids in place of object
 * references: `nodes` is the id -> node `Map`, `roots` and every children
 * list hold the ids of the node objects pushed onto them, and `professors`
 * holds the `professors` property of the nodes that have one.
 */
module OrgTree {
  import opened Wrappers
  import opened Cells
  import opened Columns
  import opened Report

  /** One row of the org-chart sheet: position name, id, supervisor's id, English name. */
  datatype OrgNode = OrgNode(name: Cell, id: Cell, supervisorId: Cell, englishName: Cell)

  /** A person attached to an org node. */
  datatype Professor = Professor(name: Cell, period: string, category: Cell)

  // ------------------------------------------------------------ row filter

  /** The node a row describes: it needs three cells, a truthy name and an id that is not `null`. */
  function OrgNodeOf(row: Row): (n: Option<OrgNode>)
    ensures n.Some? <==> |row| >= 3 && Truthy(row[0]) && row[1] != Null
    ensures n.Some? ==> n.value.name == row[0] && n.value.id == row[1] && n.value.supervisorId == row[2]
    ensures n.Some? && Truthy(Get(row, 3)) ==> n.value.englishName == row[3]
    ensures n.Some? && !Truthy(Get(row, 3)) ==> n.value.englishName == Str("")
  {
    if |row| >= 3 && Truthy(row[0]) && row[1] != Null then
      Some(OrgNode(row[0], row[1], row[2], Or(Get(row, 3), Str(""))))
    else None
  }

  /** The nodes of the rows from `from` on, in row order. */
  function OrgNodesFrom(rows: seq<Row>, from: nat): seq<OrgNode>
    decreases |rows| - from
  {
    if from >= |rows| then []
    else
      match OrgNodeOf(rows[from])
      case Some(n) => [n] + OrgNodesFrom(rows, from + 1)
      case None => OrgNodesFrom(rows, from + 1)
  }

  /** The row loop of `parseOrgChartFile`: every row after the header row. */
  method ParseOrgRows(rows: seq<Row>) returns (orgNodes: seq<OrgNode>)
    ensures orgNodes == OrgNodesFrom(rows, 1)
  {
    orgNodes := [];
    var i := 1;
    while i < |rows|
      invariant 1 <= i
      invariant i <= |rows| || (i == 1 && |rows| == 0)
      invariant orgNodes + OrgNodesFrom(rows, i) == OrgNodesFrom(rows, 1)
    {
      var row := rows[i];
      if |row| >= 3 {
        var node := OrgNode(row[0], row[1], row[2], Or(Get(row, 3), Str("")));
        if Truthy(node.name) && node.id != Null {
          orgNodes := orgNodes + [node];
          assert orgNodes + OrgNodesFrom(rows, i + 1) == OrgNodesFrom(rows, 1);
        }
      }
      i := i + 1;
    }
  }

  /** Every parsed node is the node of one of the rows, and every row that qualifies gives its node. */
  lemma {:induction false} OrgNodesAreQualifyingRows(rows: seq<Row>, from: nat)
    ensures forall n :: n in OrgNodesFrom(rows, from) ==>
              exists j :: from <= j < |rows| && OrgNodeOf(rows[j]) == Some(n)
    ensures forall j :: from <= j < |rows| && OrgNodeOf(rows[j]).Some? ==>
              OrgNodeOf(rows[j]).value in OrgNodesFrom(rows, from)
    decreases |rows| - from
  {
    if from < |rows| {
      OrgNodesAreQualifyingRows(rows, from + 1);
    }
  }

  /** The filter keeps row order: the nodes of earlier rows come before those of later rows. */
  lemma {:induction false} OrgNodesKeepOrder(rows: seq<Row>, from: nat, k: nat)
    requires from <= k <= |rows|
    ensures OrgNodesFrom(rows, from) == OrgNodesFrom(rows[..k], from) + OrgNodesFrom(rows, k)
    decreases k - from
  {
    if from < k {
      OrgNodesKeepOrder(rows, from + 1, k);
      assert rows[..k][from] == rows[from];
    }
  }

  // ------------------------------------------------------------- the tree

  /** The ids of `orgNodes`: the keys of `nodeMap`. */
  function Ids(orgNodes: seq<OrgNode>): set<Cell> {
    set n | n in orgNodes :: n.id
  }

  /** `nodeMap` after the first `forEach`: each id maps to the last node carrying it. */
  function NodeMap(orgNodes: seq<OrgNode>): (m: map<Cell, OrgNode>)
    ensures m.Keys == Ids(orgNodes)
  {
    if orgNodes == [] then map[]
    else
      var last := orgNodes[|orgNodes| - 1];
      assert orgNodes == orgNodes[..|orgNodes| - 1] + [last];
      NodeMap(orgNodes[..|orgNodes| - 1])[last.id := last]
  }

  /** A node is a root when its supervisor id is `null` or is nobody's id. */
  predicate IsRoot(all: seq<OrgNode>, n: OrgNode) {
    n.supervisorId == Null || n.supervisorId !in Ids(all)
  }

  /** The ids pushed onto `roots` while the nodes `ns` of `all` are visited. */
  function RootIds(all: seq<OrgNode>, ns: seq<OrgNode>): seq<Cell> {
    if ns == [] then []
    else
      var last := ns[|ns| - 1];
      RootIds(all, ns[..|ns| - 1]) + (if IsRoot(all, last) then [last.id] else [])
  }

  /** The ids pushed onto the children list of `parent` while the nodes `ns` of `all` are visited. */
  function ChildIds(all: seq<OrgNode>, ns: seq<OrgNode>, parent: Cell): seq<Cell> {
    if ns == [] then []
    else
      var last := ns[|ns| - 1];
      ChildIds(all, ns[..|ns| - 1], parent) + (if !IsRoot(all, last) && last.supervisorId == parent then [last.id] else [])
  }

  /** No two nodes share an id. */
  predicate DistinctIds(ns: seq<OrgNode>) {
    forall i, j :: 0 <= i < j < |ns| ==> ns[i].id != ns[j].id
  }

  /** The id -> node map of a tree, with its roots, children lists and attached people. */
  class OrgChart {
    var nodes: map<Cell, OrgNode>
    var roots: seq<Cell>
    var children: map<Cell, seq<Cell>>
    var professors: map<Cell, seq<Professor>>

    /**
     * `buildOrgHierarchyFromFile(orgNodes)`: a root for every node whose
     * supervisor id is `null` or unknown, and otherwise a place in the
     * supervisor's children list, both in input order.
     */
    constructor FromNodes(orgNodes: seq<OrgNode>)
      ensures nodes == NodeMap(orgNodes)
      ensures roots == RootIds(orgNodes, orgNodes)
      ensures children.Keys == Ids(orgNodes)
      ensures forall p :: p in children ==> children[p] == ChildIds(orgNodes, orgNodes, p)
      ensures professors == map[]
    {
      var nodeMap, childMap := IndexNodes(orgNodes);
      var rootList;
      rootList, childMap := LinkNodes(orgNodes, nodeMap, childMap);
      nodes := nodeMap;
      roots := rootList;
      children := childMap;
      professors := map[];
    }

    /**
     * `matchProfessorDataToOrgChart(roots, data)`: every node reached from
     * the roots whose name is a position of the report gets that
     * position's people; the tree itself is unchanged and its roots are
     * returned. The walk goes at most as deep as there are ids (see
     * MatchNode).
     */
    method MatchProfessorData(rows: seq<Pair<ReportRow>>) returns (result: seq<Cell>)
      modifies this
      ensures result == roots
      ensures nodes == old(nodes) && roots == old(roots) && children == old(children)
      ensures Attached(professors, old(professors), nodes, PositionLists(Entries(rows)), Reached(children, roots, |nodes|))
    {
      var positionMap := BuildPositionMap(rows);
      MatchEach(roots, |nodes|, positionMap);
      result := roots;
    }

    /** `ids.forEach(id => matchNode(id))`, for the roots and for every children list. */
    method MatchEach(ids: seq<Cell>, fuel: nat, positionMap: map<string, seq<Professor>>)
      modifies this
      ensures nodes == old(nodes) && roots == old(roots) && children == old(children)
      ensures Attached(professors, old(professors), nodes, positionMap, Reached(children, ids, fuel))
      decreases fuel, 1
    {
      for k := 0 to |ids|
        invariant nodes == old(nodes) && roots == old(roots) && children == old(children)
        invariant Attached(professors, old(professors), nodes, positionMap, Reached(children, ids[..k], fuel))
      {
        assert ids[..k + 1][..k] == ids[..k];
        ghost var before := professors;
        MatchNode(ids[k], fuel, positionMap);
        AttachedTrans(professors, before, old(professors), nodes, positionMap,
          Reached(children, ids[..k], fuel), Below(children, ids[k], fuel));
      }
      assert ids[..|ids|] == ids;
    }

    /**
     * `matchNode(node)`: attach the node's people, then visit its children
     * in order. JavaScript recurses without a bound; here the depth is
     * bounded by `fuel`.
     */
    method MatchNode(id: Cell, fuel: nat, positionMap: map<string, seq<Professor>>)
      modifies this
      ensures nodes == old(nodes) && roots == old(roots) && children == old(children)
      ensures Attached(professors, old(professors), nodes, positionMap, Below(children, id, fuel))
      decreases fuel, 0
    {
      if fuel == 0 {
        return;
      }
      if Matches(nodes, positionMap, id) {
        professors := professors[id := positionMap[nodes[id].name.s]];
      }
      AttachOne(professors, old(professors), nodes, positionMap, id);
      ghost var start := professors;
      MatchEach(ChildrenOf(children, id), fuel - 1, positionMap);
      AttachedTrans(professors, start, old(professors), nodes, positionMap, {id}, Reached(children, ChildrenOf(children, id), fuel - 1));
    }
  }

  /** The first `forEach` of `buildOrgHierarchyFromFile`: a map entry and an empty children list per id. */
  method IndexNodes(orgNodes: seq<OrgNode>) returns (nodeMap: map<Cell, OrgNode>, childMap: map<Cell, seq<Cell>>)
    ensures nodeMap == NodeMap(orgNodes)
    ensures childMap.Keys == Ids(orgNodes)
    ensures forall p :: p in childMap ==> childMap[p] == []
  {
    nodeMap := map[];
    childMap := map[];
    for i := 0 to |orgNodes|
      invariant nodeMap == NodeMap(orgNodes[..i])
      invariant childMap.Keys == Ids(orgNodes[..i])
      invariant forall p :: p in childMap ==> childMap[p] == []
    {
      var node := orgNodes[i];
      assert orgNodes[..i + 1] == orgNodes[..i] + [node];
      assert orgNodes[..i + 1][..i] == orgNodes[..i];
      nodeMap := nodeMap[node.id := node];
      childMap := childMap[node.id := []];
    }
    assert orgNodes[..|orgNodes|] == orgNodes;
  }

  /**
   * The second `forEach`: a node whose supervisor id is `null` or not in
   * `nodeMap` goes onto `roots`, any other onto its supervisor's children.
   */
  method LinkNodes(orgNodes: seq<OrgNode>, nodeMap: map<Cell, OrgNode>, childMap: map<Cell, seq<Cell>>)
    returns (rootList: seq<Cell>, childMap': map<Cell, seq<Cell>>)
    requires nodeMap.Keys == Ids(orgNodes) && childMap.Keys == Ids(orgNodes)
    requires forall p :: p in childMap ==> childMap[p] == []
    ensures rootList == RootIds(orgNodes, orgNodes)
    ensures childMap'.Keys == Ids(orgNodes)
    ensures forall p :: p in childMap' ==> childMap'[p] == ChildIds(orgNodes, orgNodes, p)
  {
    rootList := [];
    childMap' := childMap;
    for i := 0 to |orgNodes|
      invariant rootList == RootIds(orgNodes, orgNodes[..i])
      invariant childMap'.Keys == Ids(orgNodes)
      invariant forall p :: p in childMap' ==> childMap'[p] == ChildIds(orgNodes, orgNodes[..i], p)
    {
      var node := orgNodes[i];
      assert orgNodes[..i + 1][..i] == orgNodes[..i];
      if node.supervisorId == Null || node.supervisorId !in nodeMap {
        rootList := rootList + [node.id];
      } else {
        var parent := node.supervisorId;
        childMap' := childMap'[parent := childMap'[parent] + [node.id]];
      }
    }
    assert orgNodes[..|orgNodes|] == orgNodes;
  }

  /** Setting one node's people when it matches is attaching over that node alone. */
  lemma AttachOne(now: map<Cell, seq<Professor>>, before: map<Cell, seq<Professor>>,
                  nodes: map<Cell, OrgNode>, positionMap: map<string, seq<Professor>>, id: Cell)
    requires Matches(nodes, positionMap, id) ==> now == before[id := positionMap[nodes[id].name.s]]
    requires !Matches(nodes, positionMap, id) ==> now == before
    ensures Attached(now, before, nodes, positionMap, {id})
  {
  }

  /**
   * With distinct ids, every node appears exactly once in the tree: a root
   * is pushed once onto `roots` and onto no children list, any other node
   * once onto its supervisor's children list and nowhere else.
   */
  lemma EachNodeOnce(all: seq<OrgNode>, ns: seq<OrgNode>, x: OrgNode)
    requires DistinctIds(ns) && x in ns
    ensures IsRoot(all, x) ==> multiset(RootIds(all, ns))[x.id] == 1
    ensures IsRoot(all, x) ==> forall p :: x.id !in ChildIds(all, ns, p)
    ensures !IsRoot(all, x) ==> x.id !in RootIds(all, ns)
    ensures !IsRoot(all, x) ==> multiset(ChildIds(all, ns, x.supervisorId))[x.id] == 1
    ensures !IsRoot(all, x) ==> forall p :: p != x.supervisorId ==> x.id !in ChildIds(all, ns, p)
  {
    if IsRoot(all, x) {
      RootOnce(all, ns, x);
    } else {
      ChildOnce(all, ns, x);
    }
  }

  /** The last node's id is carried by no earlier node. */
  lemma LastIsNew(ns: seq<OrgNode>)
    requires DistinctIds(ns) && ns != []
    ensures DistinctIds(ns[..|ns| - 1])
    ensures forall y :: y in ns[..|ns| - 1] ==> y.id != ns[|ns| - 1].id
  {
    var init := ns[..|ns| - 1];
    forall y | y in init
      ensures y.id != ns[|ns| - 1].id
    {
      var i :| 0 <= i < |init| && init[i] == y;
    }
  }

  /** A root is pushed once onto `roots` and onto no children list. */
  lemma {:induction false} RootOnce(all: seq<OrgNode>, ns: seq<OrgNode>, x: OrgNode)
    requires DistinctIds(ns) && x in ns && IsRoot(all, x)
    ensures multiset(RootIds(all, ns))[x.id] == 1
    ensures forall p :: x.id !in ChildIds(all, ns, p)
  {
    var init := ns[..|ns| - 1];
    var last := ns[|ns| - 1];
    assert ns == init + [last];
    LastIsNew(ns);
    if x == last {
      IdsAbsent(all, init, x.id);
    } else {
      assert x in init;
      RootOnce(all, init, x);
    }
  }

  /** Any other node is pushed once onto its supervisor's children list and nowhere else. */
  lemma {:induction false} ChildOnce(all: seq<OrgNode>, ns: seq<OrgNode>, x: OrgNode)
    requires DistinctIds(ns) && x in ns && !IsRoot(all, x)
    ensures x.id !in RootIds(all, ns)
    ensures multiset(ChildIds(all, ns, x.supervisorId))[x.id] == 1
    ensures forall p :: p != x.supervisorId ==> x.id !in ChildIds(all, ns, p)
  {
    var init := ns[..|ns| - 1];
    var last := ns[|ns| - 1];
    assert ns == init + [last];
    LastIsNew(ns);
    if x == last {
      IdsAbsent(all, init, x.id);
    } else {
      assert x in init;
      ChildOnce(all, init, x);
    }
  }


  /** An id that no node of `ns` carries is pushed nowhere. */
  lemma {:induction false} IdsAbsent(all: seq<OrgNode>, ns: seq<OrgNode>, id: Cell)
    requires forall y :: y in ns ==> y.id != id
    ensures id !in RootIds(all, ns)
    ensures forall p :: id !in ChildIds(all, ns, p)
  {
    if ns != [] {
      assert ns[..|ns| - 1] + [ns[|ns| - 1]] == ns;
      IdsAbsent(all, ns[..|ns| - 1], id);
    }
  }

  /** An id is pushed onto `roots` exactly when some node with that id is a root. */
  lemma {:induction false} RootIff(all: seq<OrgNode>, ns: seq<OrgNode>, id: Cell)
    ensures id in RootIds(all, ns) <==> exists n :: n in ns && n.id == id && IsRoot(all, n)
  {
    if ns != [] {
      var init := ns[..|ns| - 1];
      assert ns == init + [ns[|ns| - 1]];
      RootIff(all, init, id);
    }
  }

  /** The children list of the id -> children map (empty for an unknown id). */
  function ChildrenOf(children: map<Cell, seq<Cell>>, id: Cell): seq<Cell> {
    if id in children then children[id] else []
  }

  /** The ids `matchNode(id)` visits when its depth is bounded by `fuel`. */
  function Below(children: map<Cell, seq<Cell>>, id: Cell, fuel: nat): set<Cell>
    decreases fuel, 0
  {
    if fuel == 0 then {} else {id} + Reached(children, ChildrenOf(children, id), fuel - 1)
  }

  /** The ids visited from each of `ids` in turn. */
  function Reached(children: map<Cell, seq<Cell>>, ids: seq<Cell>, fuel: nat): set<Cell>
    decreases fuel, |ids| + 1
  {
    if ids == [] then {}
    else Reached(children, ids[..|ids| - 1], fuel) + Below(children, ids[|ids| - 1], fuel)
  }

  /** `positionMap.get(node.name)` finds a list: the node's name is a string and a key. */
  predicate Matches(nodes: map<Cell, OrgNode>, positionMap: map<string, seq<Professor>>, id: Cell) {
    id in nodes && nodes[id].name.Str? && nodes[id].name.s in positionMap && positionMap[nodes[id].name.s] != []
  }

  /**
   * `now` is `before` with the matching nodes among `visited` given their
   * position's people, and nothing else changed.
   */
  ghost predicate Attached(now: map<Cell, seq<Professor>>, before: map<Cell, seq<Professor>>,
                           nodes: map<Cell, OrgNode>, positionMap: map<string, seq<Professor>>, visited: set<Cell>) {
    && (forall k :: k in now <==> k in before || (k in visited && Matches(nodes, positionMap, k)))
    && (forall k :: k in now ==>
          now[k] == if k in visited && Matches(nodes, positionMap, k) then positionMap[nodes[k].name.s] else before[k])
  }

  /** Attaching over one set of nodes and then another attaches over both. */
  lemma AttachedTrans(p2: map<Cell, seq<Professor>>, p1: map<Cell, seq<Professor>>, p0: map<Cell, seq<Professor>>,
                      nodes: map<Cell, OrgNode>, positionMap: map<string, seq<Professor>>, a: set<Cell>, b: set<Cell>)
    requires Attached(p1, p0, nodes, positionMap, a)
    requires Attached(p2, p1, nodes, positionMap, b)
    ensures Attached(p2, p0, nodes, positionMap, a + b)
  {
  }

  // --------------------------------------------------------- position map

  /** What `positionMap` records for a report entry. */
  function ProfessorOf(e: ReportRow): Professor {
    Professor(e.name, e.period, e.category)
  }

  /** An entry with a non-empty position and a truthy name is recorded under its position. */
  predicate Recorded(e: ReportRow) {
    e.position != "" && Truthy(e.name)
  }

  /** The people recorded under `position`, in walking order. */
  function Listed(entries: seq<ReportRow>, position: string): seq<Professor> {
    if entries == [] then []
    else
      var last := entries[|entries| - 1];
      Listed(entries[..|entries| - 1], position)
        + (if Recorded(last) && last.position == position then [ProfessorOf(last)] else [])
  }

  /** `positionMap` of a walk: a key for every position with at least one person, mapped to its list. */
  ghost predicate IsPositionMap(m: map<string, seq<Professor>>, entries: seq<ReportRow>) {
    forall position ::
      && (position in m <==> Listed(entries, position) != [])
      && (position in m ==> m[position] == Listed(entries, position))
  }

  /** The position map as a value: the lists of every position some entry is recorded under. */
  ghost function PositionLists(entries: seq<ReportRow>): (m: map<string, seq<Professor>>)
    ensures IsPositionMap(m, entries)
  {
    var keys := set e | e in entries && Recorded(e) :: e.position;
    forall position | Listed(entries, position) != []
      ensures position in keys
    {
      ListedSound(entries, position);
      assert Listed(entries, position)[0] in Listed(entries, position);
    }
    map position | position in keys && Listed(entries, position) != [] :: Listed(entries, position)
  }

  /** Every person listed under a position comes from an entry holding that position with a truthy name. */
  lemma {:induction false} ListedSound(entries: seq<ReportRow>, position: string)
    ensures forall p :: p in Listed(entries, position) ==>
              exists e :: e in entries && Recorded(e) && e.position == position && p == ProfessorOf(e)
    ensures position == "" ==> Listed(entries, position) == []
  {
    if entries != [] {
      var init := entries[..|entries| - 1];
      assert entries == init + [entries[|entries| - 1]];
      ListedSound(init, position);
    }
  }

  /** Every entry holding a position with a truthy name is listed under that position. */
  lemma {:induction false} ListedComplete(entries: seq<ReportRow>, e: ReportRow)
    requires e in entries && Recorded(e)
    ensures ProfessorOf(e) in Listed(entries, e.position)
  {
    var init := entries[..|entries| - 1];
    assert entries == init + [entries[|entries| - 1]];
    if e != entries[|entries| - 1] {
      ListedComplete(init, e);
    }
  }

  /** The first loop of `matchProfessorDataToOrgChart`: group the report entries by position. */
  method BuildPositionMap(rows: seq<Pair<ReportRow>>) returns (positionMap: map<string, seq<Professor>>)
    ensures positionMap == PositionLists(Entries(rows))
  {
    positionMap := map[];
    for i := 0 to |rows|
      invariant IsPositionMap(positionMap, Entries(rows[..i]))
    {
      positionMap := RecordRow(positionMap, rows[i], Entries(rows[..i]));
      assert rows[..i + 1][..i] == rows[..i];
    }
    assert rows[..|rows|] == rows;
    PositionMapUnique(positionMap, PositionLists(Entries(rows)), Entries(rows));
  }

  /** The inner `forEach` over the two sides of one line. */
  method RecordRow(positionMap: map<string, seq<Professor>>, row: Pair<ReportRow>, ghost done: seq<ReportRow>)
    returns (positionMap': map<string, seq<Professor>>)
    requires IsPositionMap(positionMap, done)
    ensures IsPositionMap(positionMap', done + Sides(row))
  {
    positionMap' := positionMap;
    assert done + Sides(row)[..0] == done;
    for side := 0 to 2
      invariant IsPositionMap(positionMap', done + Sides(row)[..side])
    {
      var item := if side == 0 then row.left else row.right;
      assert done + Sides(row)[..side + 1] == (done + Sides(row)[..side]) + [item];
      positionMap' := RecordItem(positionMap', item, done + Sides(row)[..side]);
    }
    assert Sides(row)[..2] == Sides(row);
  }

  /** The body of the inner `forEach`: record one entry under its position. */
  method RecordItem(positionMap: map<string, seq<Professor>>, item: ReportRow, ghost seen: seq<ReportRow>)
    returns (positionMap': map<string, seq<Professor>>)
    requires IsPositionMap(positionMap, seen)
    ensures IsPositionMap(positionMap', seen + [item])
  {
    positionMap' := positionMap;
    if item.position != "" && Truthy(item.name) {
      if item.position !in positionMap' {
        positionMap' := positionMap'[item.position := []];
      }
      positionMap' := positionMap'[item.position := positionMap'[item.position] + [ProfessorOf(item)]];
    }
    forall position
      ensures && (position in positionMap' <==> Listed(seen + [item], position) != [])
              && (position in positionMap' ==> positionMap'[position] == Listed(seen + [item], position))
    {
      assert (seen + [item])[..|seen + [item]| - 1] == seen;
    }
  }

  /** Two position maps of the same walk are the same map. */
  lemma PositionMapUnique(m1: map<string, seq<Professor>>, m2: map<string, seq<Professor>>, entries: seq<ReportRow>)
    requires IsPositionMap(m1, entries) && IsPositionMap(m2, entries)
    ensures m1 == m2
  {
    assert m1.Keys == m2.Keys;
  }
}
