/** Attribute values of nodes and edges: addNodes, addNodeAttributes, getNodeAttributes,
    addAttributedEdges and getEdgeAttributes. Each binds a list of values to the columns named
    by a list of attribute descriptions, position by position. */
module Attributes {
  import opened Common
  import opened Schema
  import opened Store

  // ---------------------------------------------------------------- binding values to columns

  /** The columns a statement names, as SQLite resolves them (ignoring ASCII case). */
  function Columns(names: seq<string>): (r: seq<string>)
    ensures |r| == |names|
    ensures forall i :: 0 <= i < |names| ==> r[i] == Lower(names[i])
  {
    seq(|names|, i requires 0 <= i < |names| => Lower(names[i]))
  }

  predicate Resolves(columns: seq<string>, available: set<string>) {
    forall i :: 0 <= i < |columns| ==> columns[i] in available
  }

  predicate Distinct(columns: seq<string>) {
    forall i, j :: 0 <= i < j < |columns| ==> columns[i] != columns[j]
  }

  /** No two descriptions name the same column. */
  predicate DistinctNames(descriptions: seq<AttributeDescription>) {
    forall i, j :: 0 <= i < j < |descriptions| ==> Lower(descriptions[i].name) != Lower(descriptions[j].name)
  }

  /** Every value agrees with the data type of the description at its position. */
  predicate Agree(descriptions: seq<AttributeDescription>, values: seq<Value>)
    requires |descriptions| == |values|
  {
    forall i :: 0 <= i < |values| ==> DataTypeAgrees(descriptions[i], values[i])
  }

  /** The row after "SET c1 = v1, c2 = v2, ...": every named column takes its value, the
      rightmost assignment of a repeated column wins, other columns keep theirs. */
  function Assign(row: Row, columns: seq<string>, values: seq<Value>): (r: Row)
    requires |columns| == |values|
    ensures forall k :: k in r <==> k in row || k in columns
    decreases |columns|
  {
    if |columns| == 0 then row
    else
      var n := |columns| - 1;
      assert columns == columns[..n] + [columns[n]];
      Assign(row, columns[..n], values[..n])[columns[n] := values[n]]
  }

  /** A column the assignment does not name keeps its value. */
  lemma {:induction false} AssignKeeps(row: Row, columns: seq<string>, values: seq<Value>, k: string)
    requires |columns| == |values| && k in row && k !in columns
    ensures Assign(row, columns, values)[k] == row[k]
    decreases |columns|
  {
    if |columns| > 0 {
      var n := |columns| - 1;
      assert columns == columns[..n] + [columns[n]];
      AssignKeeps(row, columns[..n], values[..n], k);
    }
  }

  /** A column not named again to the right of position i takes the value at position i. */
  lemma {:induction false} AssignSets(row: Row, columns: seq<string>, values: seq<Value>, i: int)
    requires |columns| == |values| && 0 <= i < |columns|
    requires forall j :: i < j < |columns| ==> columns[j] != columns[i]
    ensures Assign(row, columns, values)[columns[i]] == values[i]
    decreases |columns|
  {
    var n := |columns| - 1;
    if i < n {
      assert columns[..n][i] == columns[i] && values[..n][i] == values[i];
      AssignSets(row, columns[..n], values[..n], i);
    }
  }

  /** Assigning to columns that all exist keeps the row within the table's columns. */
  lemma AssignWithin(row: Row, columns: seq<string>, values: seq<Value>, available: set<string>)
    requires |columns| == |values| && Resolves(columns, available) && row.Keys <= available
    ensures Assign(row, columns, values).Keys <= available
  {
  }

  /** "SELECT c1, c2, ..." from one row: an absent column reads as NULL. */
  function Project(row: Row, columns: seq<string>): (r: seq<Value>)
    ensures |r| == |columns|
    ensures forall i :: 0 <= i < |columns| ==> r[i] == (if columns[i] in row then row[columns[i]] else Null)
  {
    seq(|columns|, i requires 0 <= i < |columns| => if columns[i] in row then row[columns[i]] else Null)
  }

  /** Reading back the columns just written returns the written values. */
  lemma ProjectAssign(row: Row, columns: seq<string>, values: seq<Value>)
    requires |columns| == |values| && Distinct(columns)
    ensures Project(Assign(row, columns, values), columns) == values
  {
    forall i | 0 <= i < |columns| ensures Project(Assign(row, columns, values), columns)[i] == values[i] {
      AssignSets(row, columns, values, i);
    }
  }

  // ---------------------------------------------------------------- statement targets

  /** The checks made before a node statement runs: getSchema, getNodeAttributesTableName, and
      that the statement compiles (the node-attribute table and every named column exist).
      Yields the network and the columns. */
  function NodeTarget(s: Store, descriptions: seq<AttributeDescription>): (r: Result<(string, seq<string>)>)
    ensures r.Success? <==>
              && GetSchema(NodeAttribute, descriptions).Success?
              && descriptions[0].networkTableName != ""
              && descriptions[0].networkTableName in s.networks
              && Resolves(Columns(GetSchema(NodeAttribute, descriptions).value.1), s.networks[descriptions[0].networkTableName].nodeColumns)
    ensures r.Failure? ==> r.error in {InvalidArgument, SchemaMismatch, StoreError}
    ensures r.Failure? && GetSchema(NodeAttribute, descriptions).Success? && descriptions[0].networkTableName != "" ==>
              r.error == StoreError
    ensures r.Success? ==> && r.value.0 == descriptions[0].networkTableName
                           && r.value.0 in s.networks
                           && |r.value.1| == |descriptions|
                           && (forall i :: 0 <= i < |descriptions| ==> r.value.1[i] == Lower(descriptions[i].name))
                           && Resolves(r.value.1, s.networks[r.value.0].nodeColumns)
  {
    var schema :- GetSchema(NodeAttribute, descriptions);
    var _ :- GetNodeAttributesTableName(schema.0);
    if schema.0 !in s.networks then Failure(StoreError)
    else
      var columns := Columns(schema.1);
      if !Resolves(columns, s.networks[schema.0].nodeColumns) then Failure(StoreError)
      else Success((schema.0, columns))
  }

  /** The same for an edge statement; the table is the network table itself. */
  function EdgeTarget(s: Store, descriptions: seq<AttributeDescription>): (r: Result<(string, seq<string>)>)
    ensures r.Success? <==>
              && GetSchema(EdgeAttribute, descriptions).Success?
              && descriptions[0].networkTableName in s.networks
              && Resolves(Columns(GetSchema(EdgeAttribute, descriptions).value.1), s.networks[descriptions[0].networkTableName].edgeColumns)
    ensures r.Failure? && GetSchema(EdgeAttribute, descriptions).Success? ==> r.error == StoreError
    ensures r.Success? ==> && r.value.0 == descriptions[0].networkTableName
                           && r.value.0 in s.networks
                           && |r.value.1| == |descriptions|
                           && (forall i :: 0 <= i < |descriptions| ==> r.value.1[i] == Lower(descriptions[i].name))
                           && Resolves(r.value.1, s.networks[r.value.0].edgeColumns)
  {
    var schema :- GetSchema(EdgeAttribute, descriptions);
    if schema.0 !in s.networks then Failure(StoreError)
    else
      var columns := Columns(schema.1);
      if !Resolves(columns, s.networks[schema.0].edgeColumns) then Failure(StoreError)
      else Success((schema.0, columns))
  }

  /** The checks made before the SELECT of getNodeAttributes runs. They are those of a node write,
      except that a SELECT may also name the fixed column node_id. */
  function NodeReadTarget(s: Store, descriptions: seq<AttributeDescription>): (r: Result<(string, seq<string>)>)
    ensures r.Success? <==>
              && GetSchema(NodeAttribute, descriptions).Success?
              && descriptions[0].networkTableName != ""
              && descriptions[0].networkTableName in s.networks
              && Resolves(Columns(GetSchema(NodeAttribute, descriptions).value.1),
                          NodeTableColumns + s.networks[descriptions[0].networkTableName].nodeColumns)
    ensures r.Failure? && GetSchema(NodeAttribute, descriptions).Success? && descriptions[0].networkTableName != "" ==>
              r.error == StoreError
    ensures r.Success? ==> && r.value.0 == descriptions[0].networkTableName
                           && r.value.0 in s.networks
                           && |r.value.1| == |descriptions|
                           && (forall i :: 0 <= i < |descriptions| ==> r.value.1[i] == Lower(descriptions[i].name))
  {
    var schema :- GetSchema(NodeAttribute, descriptions);
    var _ :- GetNodeAttributesTableName(schema.0);
    if schema.0 !in s.networks then Failure(StoreError)
    else
      var columns := Columns(schema.1);
      if !Resolves(columns, NodeTableColumns + s.networks[schema.0].nodeColumns) then Failure(StoreError)
      else Success((schema.0, columns))
  }

  /** The same for the SELECT of getEdgeAttributes, which may also name id, from_node and to_node. */
  function EdgeReadTarget(s: Store, descriptions: seq<AttributeDescription>): (r: Result<(string, seq<string>)>)
    ensures r.Success? <==>
              && GetSchema(EdgeAttribute, descriptions).Success?
              && descriptions[0].networkTableName in s.networks
              && Resolves(Columns(GetSchema(EdgeAttribute, descriptions).value.1),
                          EdgeTableColumns + s.networks[descriptions[0].networkTableName].edgeColumns)
    ensures r.Failure? && GetSchema(EdgeAttribute, descriptions).Success? ==> r.error == StoreError
    ensures r.Success? ==> && r.value.0 == descriptions[0].networkTableName
                           && r.value.0 in s.networks
                           && |r.value.1| == |descriptions|
                           && (forall i :: 0 <= i < |descriptions| ==> r.value.1[i] == Lower(descriptions[i].name))
  {
    var schema :- GetSchema(EdgeAttribute, descriptions);
    if schema.0 !in s.networks then Failure(StoreError)
    else
      var columns := Columns(schema.1);
      if !Resolves(columns, EdgeTableColumns + s.networks[schema.0].edgeColumns) then Failure(StoreError)
      else Success((schema.0, columns))
  }

  /** Every list of columns a writing statement accepts, a SELECT accepts as well. */
  lemma WriteTargetIsReadTarget(s: Store, descriptions: seq<AttributeDescription>)
    ensures NodeTarget(s, descriptions).Success? ==> NodeReadTarget(s, descriptions) == NodeTarget(s, descriptions)
    ensures EdgeTarget(s, descriptions).Success? ==> EdgeReadTarget(s, descriptions) == EdgeTarget(s, descriptions)
  {
  }

  /** The value a SELECT of column c reads from a node's row: the attribute value if the row has
      one, the node's id for node_id, and NULL otherwise. */
  function NodeColumn(node: int, row: Row, c: string): Value {
    if c in row then row[c] else if c == "node_id" then IntegerValue(node) else Null
  }

  /** The value a SELECT of column c reads from an edge's row: the attribute value if the row has
      one, the edge's id or endpoint for a fixed column, and NULL otherwise. */
  function EdgeColumn(e: EdgeRow, c: string): Value {
    if c in e.values then e.values[c]
    else if c == "id" then IntegerValue(e.edge.identifier)
    else if c == "from_node" then IntegerValue(e.edge.from)
    else if c == "to_node" then IntegerValue(e.edge.to)
    else Null
  }

  /** "SELECT c1, c2, ..." from a node's row. */
  function SelectNode(node: int, row: Row, columns: seq<string>): (r: seq<Value>)
    ensures |r| == |columns|
    ensures forall i :: 0 <= i < |columns| ==> r[i] == NodeColumn(node, row, columns[i])
  {
    seq(|columns|, i requires 0 <= i < |columns| => NodeColumn(node, row, columns[i]))
  }

  /** "SELECT c1, c2, ..." from an edge's row. */
  function SelectEdge(e: EdgeRow, columns: seq<string>): (r: seq<Value>)
    ensures |r| == |columns|
    ensures forall i :: 0 <= i < |columns| ==> r[i] == EdgeColumn(e, columns[i])
  {
    seq(|columns|, i requires 0 <= i < |columns| => EdgeColumn(e, columns[i]))
  }

  /** Selecting attribute columns the row holds reads the row itself. */
  lemma SelectNodeOwnColumns(node: int, row: Row, columns: seq<string>)
    requires forall i :: 0 <= i < |columns| ==> columns[i] in row
    ensures SelectNode(node, row, columns) == Project(row, columns)
  {
  }

  lemma SelectEdgeOwnColumns(e: EdgeRow, columns: seq<string>)
    requires forall i :: 0 <= i < |columns| ==> columns[i] in e.values
    ensures SelectEdge(e, columns) == Project(e.values, columns)
  {
  }


  lemma DistinctNamesColumns(descriptions: seq<AttributeDescription>, columns: seq<string>)
    requires DistinctNames(descriptions)
    requires |columns| == |descriptions| && forall i :: 0 <= i < |descriptions| ==> columns[i] == Lower(descriptions[i].name)
    ensures Distinct(columns)
  {
  }

  // ---------------------------------------------------------------- addNodes

  /** What makes every INSERT of addNodes succeed: each value list has one value per column
      and every node id is new to the table and to the batch (node_id is the primary key). */
  predicate NodesInsertable(nodes: map<int, Row>, width: nat, pairs: seq<(int, seq<Value>)>) {
    && (forall i :: 0 <= i < |pairs| ==> |pairs[i].1| == width && pairs[i].0 !in nodes)
    && (forall i, j :: 0 <= i < j < |pairs| ==> pairs[i].0 != pairs[j].0)
  }

  /** Once the first pair's row is in, the batch is insertable exactly when the rest is. */
  lemma InsertableAfterFirst(nodes: map<int, Row>, width: nat, pairs: seq<(int, seq<Value>)>, row: Row)
    requires |pairs| > 0 && |pairs[0].1| == width && pairs[0].0 !in nodes
    ensures NodesInsertable(nodes, width, pairs) <==> NodesInsertable(nodes[pairs[0].0 := row], width, pairs[1..])
  {
    var rest := pairs[1..];
    assert forall i :: 1 <= i < |pairs| ==> pairs[i] == rest[i - 1];
    if NodesInsertable(nodes[pairs[0].0 := row], width, rest) {
      forall i, j | 0 <= i < j < |pairs| ensures pairs[i].0 != pairs[j].0 {
        if i > 0 { assert pairs[i] == rest[i - 1] && pairs[j] == rest[j - 1]; }
        else { assert rest[j - 1].0 !in nodes[pairs[0].0 := row]; }
      }
    }
  }

  /** The INSERTs of addNodes, one per pair and in order; the first failing pair stops the
      method and the rows inserted before it stay. */
  function InsertNodes(t: NetworkTables, columns: seq<string>, pairs: seq<(int, seq<Value>)>): (r: (NetworkTables, Result<()>))
    ensures r.0.info == t.info && r.0.edges == t.edges && r.0.nextEdgeId == t.nextEdgeId
            && r.0.edgeColumns == t.edgeColumns && r.0.nodeColumns == t.nodeColumns
    ensures forall v :: v in t.nodes ==> v in r.0.nodes && r.0.nodes[v] == t.nodes[v]
    ensures forall v :: v in r.0.nodes && v !in t.nodes ==>
              exists i :: 0 <= i < |pairs| && pairs[i].0 == v && |pairs[i].1| == |columns|
                          && r.0.nodes[v] == Assign(map[], columns, pairs[i].1)
    ensures r.1.Success? <==> NodesInsertable(t.nodes, |columns|, pairs)
    ensures r.1.Success? ==> forall i :: 0 <= i < |pairs| ==>
              pairs[i].0 in r.0.nodes && |pairs[i].1| == |columns| && r.0.nodes[pairs[i].0] == Assign(map[], columns, pairs[i].1)
    ensures r.1.Failure? ==> r.1.error == ArityMismatch || r.1.error == ConstraintViolation
    decreases |pairs|
  {
    if |pairs| == 0 then (t, Success(()))
    else
      var v := pairs[0].0;
      var values := pairs[0].1;
      if |values| != |columns| then (t, Failure(ArityMismatch))
      else if v in t.nodes then (t, Failure(ConstraintViolation))
      else
        var t1 := t.(nodes := t.nodes[v := Assign(map[], columns, values)]);
        var r := InsertNodes(t1, columns, pairs[1..]);
        assert forall i :: 1 <= i < |pairs| ==> pairs[i] == pairs[1..][i - 1];
        InsertableAfterFirst(t.nodes, |columns|, pairs, Assign(map[], columns, values));
        r
  }

  /** addNodes: inserts a row per (node, values) pair into the node-attribute table. The
      values are not checked against the descriptions' data types. */
  function AddNodes(s: Store, pairs: seq<(int, seq<Value>)>, descriptions: seq<AttributeDescription>): (r: Outcome<()>)
    ensures NodeTarget(s, descriptions).Failure? ==> r == Outcome(s, Failure(NodeTarget(s, descriptions).error))
    ensures r.result.Success? <==>
              NodeTarget(s, descriptions).Success?
              && NodesInsertable(s.networks[descriptions[0].networkTableName].nodes, |descriptions|, pairs)
    ensures r.after.networks.Keys == s.networks.Keys && r.after.descriptions == s.descriptions
    ensures NodeTarget(s, descriptions).Success? ==>
              var n := descriptions[0].networkTableName;
              var written := InsertNodes(s.networks[n], NodeTarget(s, descriptions).value.1, pairs);
              r == Outcome(s.(networks := s.networks[n := written.0]), written.1)
  {
    match NodeTarget(s, descriptions)
    case Failure(e) => Outcome(s, Failure(e))
    case Success(target) =>
      var n := target.0;
      var written := InsertNodes(s.networks[n], target.1, pairs);
      Outcome(s.(networks := s.networks[n := written.0]), written.1)
  }

  // ---------------------------------------------------------------- addNodeAttributes

  /** The UPDATEs of addNodeAttributes, one per node and in order. An UPDATE of a node that
      has no row changes nothing and is not an error. */
  function UpdateNodes(t: NetworkTables, descriptions: seq<AttributeDescription>, columns: seq<string>,
                       nodes: seq<(int, seq<Value>)>): (r: (NetworkTables, Result<()>))
    requires |columns| == |descriptions|
    ensures r.0.info == t.info && r.0.edges == t.edges && r.0.nextEdgeId == t.nextEdgeId
            && r.0.edgeColumns == t.edgeColumns && r.0.nodeColumns == t.nodeColumns
    ensures r.0.nodes.Keys == t.nodes.Keys
    ensures Resolves(columns, t.nodeColumns) && (forall v :: v in t.nodes ==> t.nodes[v].Keys <= t.nodeColumns) ==>
              forall v :: v in r.0.nodes ==> r.0.nodes[v].Keys <= r.0.nodeColumns
    ensures forall v :: v in t.nodes && (forall i :: 0 <= i < |nodes| ==> nodes[i].0 != v) ==> r.0.nodes[v] == t.nodes[v]
    ensures r.1.Success? <==> forall i :: 0 <= i < |nodes| ==>
              |nodes[i].1| == |descriptions| && Agree(descriptions, nodes[i].1)
    ensures r.1.Failure? ==> r.1.error == ArityMismatch || r.1.error == TypeMismatch
    decreases |nodes|
  {
    if |nodes| == 0 then (t, Success(()))
    else
      var v := nodes[0].0;
      var values := nodes[0].1;
      if |values| != |descriptions| then (t, Failure(ArityMismatch))
      else if !Agree(descriptions, values) then (t, Failure(TypeMismatch))
      else
        var t1 := if v in t.nodes then t.(nodes := t.nodes[v := Assign(t.nodes[v], columns, values)]) else t;
        assert forall i :: 1 <= i < |nodes| ==> nodes[i] == nodes[1..][i - 1];
        UpdateNodes(t1, descriptions, columns, nodes[1..])
  }

  /** How many nodes the UPDATEs reach before one stops them: the position of the first value
      list of the wrong length or type, or all of them. */
  function UpdatedCount(descriptions: seq<AttributeDescription>, nodes: seq<(int, seq<Value>)>): (n: nat)
    ensures n <= |nodes|
    ensures forall i :: 0 <= i < n ==> |nodes[i].1| == |descriptions| && Agree(descriptions, nodes[i].1)
    ensures n < |nodes| ==> !(|nodes[n].1| == |descriptions| && Agree(descriptions, nodes[n].1))
    decreases |nodes|
  {
    if |nodes| == 0 then 0
    else if |nodes[0].1| != |descriptions| || !Agree(descriptions, nodes[0].1) then 0
    else
      assert forall i :: 1 <= i < |nodes| ==> nodes[i] == nodes[1..][i - 1];
      1 + UpdatedCount(descriptions, nodes[1..])
  }

  /** What the UPDATEs write: the run stops at the first node whose values are refused, with the
      nodes before it updated (nothing rolls them back). Among those, a node that has a row and
      is not named again holds its values in the columns; a node none of them names keeps its
      row. */
  lemma UpdateNodesWrites(t: NetworkTables, descriptions: seq<AttributeDescription>, columns: seq<string>,
                          nodes: seq<(int, seq<Value>)>)
    requires |columns| == |descriptions| && Distinct(columns)
    ensures var r := UpdateNodes(t, descriptions, columns, nodes);
            var p := UpdatedCount(descriptions, nodes);
            && (r.1.Success? <==> p == |nodes|)
            && (forall i :: 0 <= i < p && nodes[i].0 in t.nodes && (forall j :: i < j < p ==> nodes[j].0 != nodes[i].0) ==>
                  && (forall c :: 0 <= c < |columns| ==> columns[c] in r.0.nodes[nodes[i].0])
                  && Project(r.0.nodes[nodes[i].0], columns) == nodes[i].1)
            && (forall v :: v in t.nodes && (forall i :: 0 <= i < p ==> nodes[i].0 != v) ==> r.0.nodes[v] == t.nodes[v])
  {
    var p := UpdatedCount(descriptions, nodes);
    UpdateNodesSetsReached(t, descriptions, columns, nodes);
    UpdateNodesKeepsUnreached(t, descriptions, columns, nodes);
    forall i | 0 <= i < p && nodes[i].0 in t.nodes && (forall j :: i < j < p ==> nodes[j].0 != nodes[i].0)
      ensures LastMention(nodes, i, p)
    {
    }
  }

  /** nodes[i] is the last of the first p nodes to name its node. */
  predicate LastMention(nodes: seq<(int, seq<Value>)>, i: int, p: int) {
    && 0 <= i < p <= |nodes|
    && forall j :: i < j < p ==> nodes[j].0 != nodes[i].0
  }

  /** The row has every column, and they hold these values. */
  predicate Holds(row: Row, columns: seq<string>, values: seq<Value>) {
    && (forall c :: 0 <= c < |columns| ==> columns[c] in row)
    && Project(row, columns) == values
  }

  /** Dropping the first node keeps every later last mention a last mention. */
  lemma LastMentionShift(nodes: seq<(int, seq<Value>)>, i: int, p: int)
    requires LastMention(nodes, i, p) && i > 0
    ensures LastMention(nodes[1..], i - 1, p - 1) && nodes[1..][i - 1] == nodes[i]
  {
    forall j | i - 1 < j < p - 1 ensures nodes[1..][j].0 != nodes[1..][i - 1].0 {
      assert nodes[1..][j] == nodes[j + 1];
    }
  }

  /** The rows of the nodes the run reaches, each holding the values of its last mention. */
  lemma {:induction false} UpdateNodesSetsReached(t: NetworkTables, descriptions: seq<AttributeDescription>, columns: seq<string>,
                                                  nodes: seq<(int, seq<Value>)>)
    requires |columns| == |descriptions| && Distinct(columns)
    ensures var r := UpdateNodes(t, descriptions, columns, nodes);
            var p := UpdatedCount(descriptions, nodes);
            forall i {:trigger LastMention(nodes, i, p)} :: LastMention(nodes, i, p) && nodes[i].0 in t.nodes ==>
              Holds(r.0.nodes[nodes[i].0], columns, nodes[i].1)
    decreases |nodes|
  {
    var r := UpdateNodes(t, descriptions, columns, nodes);
    var p := UpdatedCount(descriptions, nodes);
    if |nodes| > 0 && |nodes[0].1| == |descriptions| && Agree(descriptions, nodes[0].1) {
      var v0 := nodes[0].0;
      var rest := nodes[1..];
      var t1 := if v0 in t.nodes then t.(nodes := t.nodes[v0 := Assign(t.nodes[v0], columns, nodes[0].1)]) else t;
      assert r == UpdateNodes(t1, descriptions, columns, rest);
      assert p - 1 == UpdatedCount(descriptions, rest);
      UpdateNodesSetsReached(t1, descriptions, columns, rest);
      forall i | LastMention(nodes, i, p) && nodes[i].0 in t.nodes
        ensures Holds(r.0.nodes[nodes[i].0], columns, nodes[i].1)
      {
        if i == 0 {
          UpdateNodesSetsFirst(t, descriptions, columns, nodes);
        } else {
          LastMentionShift(nodes, i, p);
          var q := UpdatedCount(descriptions, rest);
          assert LastMention(rest, i - 1, q) && rest[i - 1].0 in t1.nodes;
          assert Holds(r.0.nodes[rest[i - 1].0], columns, rest[i - 1].1);
        }
      }
    }
  }

  /** The first node, when its values are accepted and the run reaches no later mention of it. */
  lemma UpdateNodesSetsFirst(t: NetworkTables, descriptions: seq<AttributeDescription>, columns: seq<string>,
                             nodes: seq<(int, seq<Value>)>)
    requires |columns| == |descriptions| && Distinct(columns)
    requires |nodes| > 0 && |nodes[0].1| == |descriptions| && Agree(descriptions, nodes[0].1) && nodes[0].0 in t.nodes
    requires LastMention(nodes, 0, UpdatedCount(descriptions, nodes))
    ensures Holds(UpdateNodes(t, descriptions, columns, nodes).0.nodes[nodes[0].0], columns, nodes[0].1)
  {
    var v0 := nodes[0].0;
    var rest := nodes[1..];
    var t1 := t.(nodes := t.nodes[v0 := Assign(t.nodes[v0], columns, nodes[0].1)]);
    assert UpdateNodes(t, descriptions, columns, nodes) == UpdateNodes(t1, descriptions, columns, rest);
    assert UpdatedCount(descriptions, nodes) == 1 + UpdatedCount(descriptions, rest);
    forall j | 0 <= j < UpdatedCount(descriptions, rest) ensures rest[j].0 != v0 {
      assert nodes[j + 1] == rest[j];
    }
    UpdateNodesKeepsUnreached(t1, descriptions, columns, rest);
    ProjectAssign(t.nodes[v0], columns, nodes[0].1);
  }

  /** A node with a row that none of the nodes the run reaches names keeps that row. */
  lemma {:induction false} UpdateNodesKeepsUnreached(t: NetworkTables, descriptions: seq<AttributeDescription>, columns: seq<string>,
                                                     nodes: seq<(int, seq<Value>)>)
    requires |columns| == |descriptions|
    ensures var r := UpdateNodes(t, descriptions, columns, nodes);
            var p := UpdatedCount(descriptions, nodes);
            forall v :: v in t.nodes && (forall i :: 0 <= i < p ==> nodes[i].0 != v) ==> r.0.nodes[v] == t.nodes[v]
    decreases |nodes|
  {
    var r := UpdateNodes(t, descriptions, columns, nodes);
    var p := UpdatedCount(descriptions, nodes);
    if |nodes| > 0 && |nodes[0].1| == |descriptions| && Agree(descriptions, nodes[0].1) {
      var v0 := nodes[0].0;
      var rest := nodes[1..];
      var t1 := if v0 in t.nodes then t.(nodes := t.nodes[v0 := Assign(t.nodes[v0], columns, nodes[0].1)]) else t;
      assert r == UpdateNodes(t1, descriptions, columns, rest);
      assert p == 1 + UpdatedCount(descriptions, rest);
      UpdateNodesKeepsUnreached(t1, descriptions, columns, rest);
      forall v | v in t.nodes && (forall i :: 0 <= i < p ==> nodes[i].0 != v)
        ensures r.0.nodes[v] == t.nodes[v]
      {
        assert nodes[0].0 != v;
        forall i | 0 <= i < p - 1 ensures rest[i].0 != v {
          assert nodes[i + 1] == rest[i];
        }
      }
    }
  }

  /** addNodeAttributes(nodes, descriptions). Every iteration repeats getSchema, the size check,
      the table name and the statement before it binds the values, checking each against the
      data type of its description. An empty node list does nothing, not even getSchema. */
  function AddNodeAttributes(s: Store, nodes: seq<(int, seq<Value>)>, descriptions: seq<AttributeDescription>): (r: Outcome<()>)
    ensures |nodes| == 0 ==> r == Outcome(s, Success(()))
    ensures |nodes| > 0 && GetSchema(NodeAttribute, descriptions).Failure? ==>
              r == Outcome(s, Failure(GetSchema(NodeAttribute, descriptions).error))
    ensures |nodes| > 0 && NodeTarget(s, descriptions).Failure? ==> r.after == s && r.result.Failure?
    ensures r.result.Success? <==>
              |nodes| == 0 ||
              (NodeTarget(s, descriptions).Success?
               && forall i :: 0 <= i < |nodes| ==> |nodes[i].1| == |descriptions| && Agree(descriptions, nodes[i].1))
    ensures r.after.networks.Keys == s.networks.Keys && r.after.descriptions == s.descriptions
    ensures forall n :: n in s.networks ==> r.after.networks[n].nodes.Keys == s.networks[n].nodes.Keys
    ensures |nodes| > 0 && NodeTarget(s, descriptions).Success? ==>
              var n := descriptions[0].networkTableName;
              var written := UpdateNodes(s.networks[n], descriptions, NodeTarget(s, descriptions).value.1, nodes);
              r == Outcome(s.(networks := s.networks[n := written.0]), written.1)
  {
    if |nodes| == 0 then Outcome(s, Success(()))
    else if GetSchema(NodeAttribute, descriptions).Failure? then Outcome(s, Failure(GetSchema(NodeAttribute, descriptions).error))
    else if |nodes[0].1| != |descriptions| then Outcome(s, Failure(ArityMismatch))
    else
      match NodeTarget(s, descriptions)
      case Failure(e) => Outcome(s, Failure(e))
      case Success(target) =>
        var n := target.0;
        var written := UpdateNodes(s.networks[n], descriptions, target.1, nodes);
        Outcome(s.(networks := s.networks[n := written.0]), written.1)
  }

  /** addNodeAttributes(node, values, descriptions): the same for a single node. */
  function AddNodeAttribute(s: Store, node: int, values: seq<Value>, descriptions: seq<AttributeDescription>): (r: Outcome<()>)
    ensures r.result.Success? <==>
              NodeTarget(s, descriptions).Success? && |values| == |descriptions| && Agree(descriptions, values)
    ensures r.result.Failure? ==> r.after == s
    ensures r.result.Success? ==>
              var n := descriptions[0].networkTableName;
              var t := s.networks[n];
              r.after == s.(networks := s.networks[n := if node in t.nodes
                                                      then t.(nodes := t.nodes[node := Assign(t.nodes[node], NodeTarget(s, descriptions).value.1, values)])
                                                      else t])
  {
    var r := AddNodeAttributes(s, [(node, values)], descriptions);
    if r.result.Failure? then r
    else
      var columns := NodeTarget(s, descriptions).value.1;
      var t := s.networks[descriptions[0].networkTableName];
      var t1 := if node in t.nodes then t.(nodes := t.nodes[node := Assign(t.nodes[node], columns, values)]) else t;
      assert [(node, values)][1..] == [];
      assert UpdateNodes(t, descriptions, columns, [(node, values)]) == UpdateNodes(t1, descriptions, columns, []);
      r
  }

  // ---------------------------------------------------------------- getNodeAttributes

  /** getNodeAttributes: the node's values in description order; a node without a row is an
      IllegalArgumentException. A description named node_id reads the node's id. */
  function GetNodeAttributes(s: Store, node: int, descriptions: seq<AttributeDescription>): (r: Result<seq<Value>>)
    ensures NodeReadTarget(s, descriptions).Failure? ==> r == Failure(NodeReadTarget(s, descriptions).error)
    ensures NodeReadTarget(s, descriptions).Success? ==>
              var t := s.networks[descriptions[0].networkTableName];
              && (r.Failure? <==> node !in t.nodes)
              && (r.Failure? ==> r.error == NotFound)
              && (r.Success? ==> |r.value| == |descriptions|
                                 && forall i :: 0 <= i < |descriptions| ==>
                                      var c := Lower(descriptions[i].name);
                                      r.value[i] == (if c in t.nodes[node] then t.nodes[node][c]
                                                     else if c == "node_id" then IntegerValue(node)
                                                     else Null))
  {
    var target :- NodeReadTarget(s, descriptions);
    var t := s.networks[target.0];
    if node !in t.nodes then Failure(NotFound) else Success(SelectNode(node, t.nodes[node], target.1))
  }

  /** In a valid store a description named node_id reads the node's own id. */
  lemma {:induction false} GetNodeAttributesReadsNodeId(s: Store, node: int, descriptions: seq<AttributeDescription>, i: int)
    requires Valid(s)
    requires GetNodeAttributes(s, node, descriptions).Success?
    requires 0 <= i < |descriptions| && Lower(descriptions[i].name) == "node_id"
    ensures GetNodeAttributes(s, node, descriptions).value[i] == IntegerValue(node)
  {
    var t := s.networks[descriptions[0].networkTableName];
    assert "node_id" in NodeTableColumns;
    assert "node_id" !in t.nodes[node];
  }

  /** After a successful addNodes every inserted node reads back the values it was inserted
      with, provided no two descriptions name the same column. */
  lemma {:induction false} AddNodesThenGetNodeAttributes(s: Store, pairs: seq<(int, seq<Value>)>, descriptions: seq<AttributeDescription>, k: int)
    requires AddNodes(s, pairs, descriptions).result.Success?
    requires DistinctNames(descriptions)
    requires 0 <= k < |pairs|
    ensures GetNodeAttributes(AddNodes(s, pairs, descriptions).after, pairs[k].0, descriptions) == Success(pairs[k].1)
  {
    var target := NodeTarget(s, descriptions).value;
    var n := target.0;
    var t' := InsertNodes(s.networks[n], target.1, pairs).0;
    DistinctNamesColumns(descriptions, target.1);
    ProjectAssign(map[], target.1, pairs[k].1);
    NodeAttributesReadBack(s, n, t', descriptions, target.1, pairs[k].0, pairs[k].1);
  }

  /** getNodeAttributes on a network whose node table was replaced by one with the same columns
      reads the node's row. */
  lemma {:induction false} NodeAttributesReadBack(s: Store, n: string, t': NetworkTables, descriptions: seq<AttributeDescription>,
                                                  columns: seq<string>, node: int, values: seq<Value>)
    requires NodeTarget(s, descriptions) == Success((n, columns))
    requires t'.nodeColumns == s.networks[n].nodeColumns
    requires node in t'.nodes && Project(t'.nodes[node], columns) == values
    requires forall i :: 0 <= i < |columns| ==> columns[i] in t'.nodes[node]
    ensures GetNodeAttributes(s.(networks := s.networks[n := t']), node, descriptions) == Success(values)
  {
    var after := s.(networks := s.networks[n := t']);
    assert NodeTarget(after, descriptions) == Success((n, columns));
    WriteTargetIsReadTarget(after, descriptions);
    SelectNodeOwnColumns(node, t'.nodes[node], columns);
  }

  /** After a successful addNodeAttributes on a node that has a row, the node reads back the
      values just written; on a node without a row the update is silently lost. */
  lemma {:induction false} AddNodeAttributeThenGetNodeAttributes(s: Store, node: int, values: seq<Value>, descriptions: seq<AttributeDescription>)
    requires AddNodeAttribute(s, node, values, descriptions).result.Success?
    requires DistinctNames(descriptions)
    ensures var after := AddNodeAttribute(s, node, values, descriptions).after;
            GetNodeAttributes(after, node, descriptions)
              == if node in s.networks[descriptions[0].networkTableName].nodes then Success(values) else Failure(NotFound)
  {
    var target := NodeTarget(s, descriptions).value;
    var n := target.0;
    var t' := UpdateNodes(s.networks[n], descriptions, target.1, [(node, values)]).0;
    DistinctNamesColumns(descriptions, target.1);
    if node in s.networks[n].nodes {
      ProjectAssign(s.networks[n].nodes[node], target.1, values);
      NodeAttributesReadBack(s, n, t', descriptions, target.1, node, values);
    }
  }

  /** After addNodeAttributes, successful or not, every node the UPDATEs reached and did not
      reach again reads back the values of its mention: the updates before a refused value list
      are committed. A node without a row stays without one. A successful call reaches every
      node. */
  lemma {:induction false} AddNodeAttributesThenGetNodeAttributes(s: Store, nodes: seq<(int, seq<Value>)>,
                                                                  descriptions: seq<AttributeDescription>, i: int)
    requires NodeTarget(s, descriptions).Success?
    requires DistinctNames(descriptions)
    requires 0 <= i < UpdatedCount(descriptions, nodes)
    requires forall j :: i < j < UpdatedCount(descriptions, nodes) ==> nodes[j].0 != nodes[i].0
    ensures AddNodeAttributes(s, nodes, descriptions).result.Success? ==> UpdatedCount(descriptions, nodes) == |nodes|
    ensures var after := AddNodeAttributes(s, nodes, descriptions).after;
            GetNodeAttributes(after, nodes[i].0, descriptions)
              == if nodes[i].0 in s.networks[descriptions[0].networkTableName].nodes then Success(nodes[i].1) else Failure(NotFound)
  {
    var target := NodeTarget(s, descriptions).value;
    var n := target.0;
    var t' := UpdateNodes(s.networks[n], descriptions, target.1, nodes).0;
    DistinctNamesColumns(descriptions, target.1);
    UpdateNodesWrites(s.networks[n], descriptions, target.1, nodes);
    assert AddNodeAttributes(s, nodes, descriptions).after == s.(networks := s.networks[n := t']);
    if nodes[i].0 in s.networks[n].nodes {
      NodeAttributesReadBack(s, n, t', descriptions, target.1, nodes[i].0, nodes[i].1);
    } else {
      var after := s.(networks := s.networks[n := t']);
      assert NodeTarget(after, descriptions) == Success((n, target.1));
      WriteTargetIsReadTarget(after, descriptions);
    }
  }

  /** A value of the wrong type rejects the whole update before anything is written. */
  lemma AddNodeAttributeRejectsTypeMismatch(s: Store, node: int, values: seq<Value>, descriptions: seq<AttributeDescription>, i: int)
    requires NodeTarget(s, descriptions).Success?
    requires |values| == |descriptions| && 0 <= i < |values| && !DataTypeAgrees(descriptions[i], values[i])
    ensures AddNodeAttribute(s, node, values, descriptions) == Outcome(s, Failure(TypeMismatch))
  {
    var target := NodeTarget(s, descriptions).value;
    var t := s.networks[target.0];
    assert s.(networks := s.networks[target.0 := t]) == s;
  }

  // ---------------------------------------------------------------- edges with attributes

  /** The INSERTs of addAttributedEdges, one per edge and in order; the first failing edge
      stops the method and the edges inserted before it stay. */
  function InsertAttributedEdges(t: NetworkTables, columns: seq<string>, items: seq<((int, int), seq<Value>)>): (r: (NetworkTables, Result<()>))
    ensures |t.edges| <= |r.0.edges| <= |t.edges| + |items|
    ensures r.0.edgeColumns == t.edgeColumns && r.0.nodeColumns == t.nodeColumns && r.0.nodes == t.nodes && r.0.info == t.info
    ensures r.1.Success? <==> |r.0.edges| == |t.edges| + |items|
    decreases |items|
  {
    if |items| == 0 then (t, Success(()))
    else
      var values := items[0].1;
      if |values| != |columns| then (t, Failure(ArityMismatch))
      else
        var (t1, r1) := InsertEdge(t, items[0].0.0, items[0].0.1, Assign(map[], columns, values));
        if r1.Failure? then (t1, Failure(r1.error))
        else InsertAttributedEdges(t1, columns, items[1..])
  }

  /** The rows that InsertAttributedEdges writes: the old rows stay in front, the i-th new row
      is the i-th edge with the next free id and its values, and a failure names the edge that
      stopped the batch — a value list of the wrong length or an endpoint pair already present. */
  lemma {:induction false} InsertAttributedEdgesWrites(t: NetworkTables, columns: seq<string>, items: seq<((int, int), seq<Value>)>)
    ensures var r := InsertAttributedEdges(t, columns, items);
            && r.0.edges[..|t.edges|] == t.edges
            && r.0.nextEdgeId == t.nextEdgeId + (|r.0.edges| - |t.edges|)
            && (forall i :: 0 <= i < |r.0.edges| - |t.edges| ==>
                  && |items[i].1| == |columns|
                  && r.0.edges[|t.edges| + i] == EdgeRow(Edge(t.nextEdgeId + i, items[i].0.0, items[i].0.1), Assign(map[], columns, items[i].1)))
            && (r.1.Failure? ==> var k := |r.0.edges| - |t.edges|;
                  || (r.1.error == ArityMismatch && |items[k].1| != |columns|)
                  || (r.1.error == ConstraintViolation && FindByPair(r.0.edges, items[k].0.0, items[k].0.1).Some?))
    decreases |items|
  {
    var r := InsertAttributedEdges(t, columns, items);
    if |items| > 0 && |items[0].1| == |columns| {
      var (t1, r1) := InsertEdge(t, items[0].0.0, items[0].0.1, Assign(map[], columns, items[0].1));
      if r1.Success? {
        InsertAttributedEdgesWrites(t1, columns, items[1..]);
        assert r.0.edges[..|t1.edges|] == t1.edges;
        assert r.0.edges[..|t.edges|] == t1.edges[..|t.edges|];
        forall i | 0 <= i < |r.0.edges| - |t.edges|
          ensures r.0.edges[|t.edges| + i] == EdgeRow(Edge(t.nextEdgeId + i, items[i].0.0, items[i].0.1), Assign(map[], columns, items[i].1))
        {
          if i > 0 {
            assert items[i] == items[1..][i - 1];
          }
        }
      }
    }
  }

  /** addAttributedEdges: an empty edge list is an IllegalArgumentException; otherwise each edge
      is inserted with its attribute values. The values are not checked against the
      descriptions' data types. */
  function AddAttributedEdges(s: Store, items: seq<((int, int), seq<Value>)>, descriptions: seq<AttributeDescription>): (r: Outcome<()>)
    ensures |items| == 0 ==> r == Outcome(s, Failure(InvalidArgument))
    ensures |items| > 0 && EdgeTarget(s, descriptions).Failure? ==> r == Outcome(s, Failure(EdgeTarget(s, descriptions).error))
    ensures |items| > 0 && EdgeTarget(s, descriptions).Success? ==>
              var n := descriptions[0].networkTableName;
              var written := InsertAttributedEdges(s.networks[n], EdgeTarget(s, descriptions).value.1, items);
              r == Outcome(s.(networks := s.networks[n := written.0]), written.1)
    ensures r.result.Success? <==>
              && |items| > 0 && EdgeTarget(s, descriptions).Success?
              && |r.after.networks[descriptions[0].networkTableName].edges|
                 == |s.networks[descriptions[0].networkTableName].edges| + |items|
  {
    if |items| == 0 then Outcome(s, Failure(InvalidArgument))
    else
      match EdgeTarget(s, descriptions)
      case Failure(e) => Outcome(s, Failure(e))
      case Success(target) =>
        var n := target.0;
        var written := InsertAttributedEdges(s.networks[n], target.1, items);
        Outcome(s.(networks := s.networks[n := written.0]), written.1)
  }

  /** Some edge has this id. */
  predicate HasId(edges: seq<EdgeRow>, identifier: int) {
    exists j :: 0 <= j < |edges| && edges[j].edge.identifier == identifier
  }

  /** j is the position of the first edge with this id. */
  predicate FirstWithId(edges: seq<EdgeRow>, identifier: int, j: int) {
    && 0 <= j < |edges| && edges[j].edge.identifier == identifier
    && forall i :: 0 <= i < j ==> edges[i].edge.identifier != identifier
  }

  /** The position of the edge with this id, if any ("WHERE id = ? LIMIT 1"). */
  function EdgePosition(edges: seq<EdgeRow>, identifier: int): (r: Option<nat>)
    ensures r.Some? ==> FirstWithId(edges, identifier, r.value)
    ensures r.None? ==> forall j :: 0 <= j < |edges| ==> edges[j].edge.identifier != identifier
  {
    if |edges| == 0 then None
    else if edges[0].edge.identifier == identifier then Some(0)
    else
      assert forall j :: 1 <= j < |edges| ==> edges[j] == edges[1..][j - 1];
      match EdgePosition(edges[1..], identifier)
      case None => None
      case Some(p) => Some(p + 1)
  }

  lemma EdgePositionUnique(edges: seq<EdgeRow>, j: int)
    requires UniqueIds(edges) && 0 <= j < |edges|
    ensures EdgePosition(edges, edges[j].edge.identifier) == Some(j)
  {
  }

  /** values is what a SELECT of the descriptions' columns reads from the edge's row. */
  predicate ReadsEdge(e: EdgeRow, descriptions: seq<AttributeDescription>, values: seq<Value>) {
    && |values| == |descriptions|
    && forall i :: 0 <= i < |descriptions| ==> values[i] == EdgeColumn(e, Lower(descriptions[i].name))
  }

  /** getEdgeAttributes: the edge's values in description order; an unknown id is an
      IllegalArgumentException. */
  function GetEdgeAttributes(s: Store, identifier: int, descriptions: seq<AttributeDescription>): (r: Result<seq<Value>>)
    ensures EdgeReadTarget(s, descriptions).Failure? ==> r == Failure(EdgeReadTarget(s, descriptions).error)
    ensures EdgeReadTarget(s, descriptions).Success? ==>
              var edges := s.networks[descriptions[0].networkTableName].edges;
              && (r.Failure? <==> !HasId(edges, identifier))
              && (r.Failure? ==> r.error == NotFound)
              && (r.Success? ==> forall j {:trigger FirstWithId(edges, identifier, j)} ::
                                   FirstWithId(edges, identifier, j) ==> ReadsEdge(edges[j], descriptions, r.value))
  {
    var target :- EdgeReadTarget(s, descriptions);
    var edges := s.networks[target.0].edges;
    match EdgePosition(edges, identifier)
    case None => Failure(NotFound)
    case Some(j) =>
      Success(SelectEdge(edges[j], target.1))
  }

  /** In a valid store descriptions named id, from_node and to_node read the edge's id and
      endpoints, as getEdge would report them. */
  lemma {:induction false} GetEdgeAttributesReadsEndpoints(s: Store, identifier: int, descriptions: seq<AttributeDescription>, i: int)
    requires Valid(s)
    requires GetEdgeAttributes(s, identifier, descriptions).Success?
    requires 0 <= i < |descriptions| && Lower(descriptions[i].name) in EdgeTableColumns
    ensures var edges := s.networks[descriptions[0].networkTableName].edges;
            exists j :: 0 <= j < |edges| && edges[j].edge.identifier == identifier
              && GetEdgeAttributes(s, identifier, descriptions).value[i]
                   == (if Lower(descriptions[i].name) == "id" then IntegerValue(identifier)
                       else if Lower(descriptions[i].name) == "from_node" then IntegerValue(edges[j].edge.from)
                       else IntegerValue(edges[j].edge.to))
  {
    var t := s.networks[descriptions[0].networkTableName];
    var j := EdgePosition(t.edges, identifier).value;
    EdgePositionUnique(t.edges, j);
    assert Lower(descriptions[i].name) !in t.edges[j].values;
  }

  /** After a successful addAttributedEdges getEdge finds the k-th edge by its endpoints, under
      the k-th new id. */
  lemma {:induction false} AddAttributedEdgesThenGetEdge(s: Store, items: seq<((int, int), seq<Value>)>,
                                      descriptions: seq<AttributeDescription>, k: int)
    requires AddAttributedEdges(s, items, descriptions).result.Success?
    requires ValidTables(descriptions[0].networkTableName, s.networks[descriptions[0].networkTableName])
    requires 0 <= k < |items|
    ensures GetEdge(AddAttributedEdges(s, items, descriptions).after, s.networks[descriptions[0].networkTableName].info,
                    items[k].0.0, items[k].0.1)
            == Success(s.networks[descriptions[0].networkTableName].nextEdgeId + k)
  {
    var n := descriptions[0].networkTableName;
    var columns, t' := AddAttributedEdgesRow(s, items, descriptions, k);
    EdgeReadBack(s, n, t', |s.networks[n].edges| + k, s.networks[n].nextEdgeId + k, items[k].0.0, items[k].0.1);
  }

  /** ... and, when no two descriptions name the same column, getEdgeAttributes reads its
      attribute values back as given. */
  lemma {:induction false} AddAttributedEdgesThenGetEdgeAttributes(s: Store, items: seq<((int, int), seq<Value>)>,
                                                descriptions: seq<AttributeDescription>, k: int)
    requires AddAttributedEdges(s, items, descriptions).result.Success?
    requires ValidTables(descriptions[0].networkTableName, s.networks[descriptions[0].networkTableName])
    requires DistinctNames(descriptions)
    requires 0 <= k < |items|
    ensures GetEdgeAttributes(AddAttributedEdges(s, items, descriptions).after,
                              s.networks[descriptions[0].networkTableName].nextEdgeId + k, descriptions)
            == Success(items[k].1)
  {
    var columns, t' := AddAttributedEdgesStores(s, items, descriptions, k);
    AttributesReadBack(s, descriptions[0].networkTableName, t', AddAttributedEdges(s, items, descriptions).after, descriptions, columns,
                       |s.networks[descriptions[0].networkTableName].edges| + k,
                       s.networks[descriptions[0].networkTableName].nextEdgeId + k, items[k].1);
  }

  /** t' is t with one row appended per item, in order, each under the next free id and with its
      values in the given columns. */
  ghost predicate Appended(t: NetworkTables, t': NetworkTables, columns: seq<string>, items: seq<((int, int), seq<Value>)>) {
    && |t'.edges| == |t.edges| + |items|
    && t'.edgeColumns == t.edgeColumns
    && forall i :: 0 <= i < |items| ==>
         && |items[i].1| == |columns|
         && t'.edges[|t.edges| + i] == EdgeRow(Edge(t.nextEdgeId + i, items[i].0.0, items[i].0.1), Assign(map[], columns, items[i].1))
  }

  lemma AppendedRow(t: NetworkTables, t': NetworkTables, columns: seq<string>, items: seq<((int, int), seq<Value>)>, k: int)
    requires Appended(t, t', columns, items) && 0 <= k < |items|
    ensures |t.edges| + k < |t'.edges| && |items[k].1| == |columns|
    ensures t'.edges[|t.edges| + k] == EdgeRow(Edge(t.nextEdgeId + k, items[k].0.0, items[k].0.1), Assign(map[], columns, items[k].1))
  {
  }

  /** A successful batch appends its rows and keeps the tables valid. */
  lemma {:induction false} BatchAppended(name: string, t: NetworkTables, columns: seq<string>, items: seq<((int, int), seq<Value>)>)
    requires ValidTables(name, t) && Resolves(columns, t.edgeColumns)
    requires InsertAttributedEdges(t, columns, items).1.Success?
    ensures ValidTables(name, InsertAttributedEdges(t, columns, items).0)
    ensures Appended(t, InsertAttributedEdges(t, columns, items).0, columns, items)
  {
    InsertAttributedEdgesPreservesValidTables(name, t, columns, items);
    InsertAttributedEdgesWrites(t, columns, items);
  }

  /** A successful addAttributedEdges replaces the network's tables by valid tables with the
      batch appended. */
  lemma {:induction false} AddAttributedEdgesWrites(s: Store, items: seq<((int, int), seq<Value>)>, descriptions: seq<AttributeDescription>)
    returns (columns: seq<string>, t': NetworkTables)
    requires AddAttributedEdges(s, items, descriptions).result.Success?
    requires ValidTables(descriptions[0].networkTableName, s.networks[descriptions[0].networkTableName])
    ensures var n := descriptions[0].networkTableName;
            && EdgeTarget(s, descriptions) == Success((n, columns))
            && |columns| == |descriptions|
            && (forall i :: 0 <= i < |descriptions| ==> columns[i] == Lower(descriptions[i].name))
            && ValidTables(n, t')
            && Appended(s.networks[n], t', columns, items)
            && AddAttributedEdges(s, items, descriptions).after == s.(networks := s.networks[n := t'])
  {
    var n := descriptions[0].networkTableName;
    columns := EdgeTarget(s, descriptions).value.1;
    t' := InsertAttributedEdges(s.networks[n], columns, items).0;
    BatchAppended(n, s.networks[n], columns, items);
  }

  /** The k-th row of a successful addAttributedEdges, and the facts about the new tables that
      reading it back needs. */
  lemma {:induction false} AddAttributedEdgesRow(s: Store, items: seq<((int, int), seq<Value>)>, descriptions: seq<AttributeDescription>, k: int)
    returns (columns: seq<string>, t': NetworkTables)
    requires AddAttributedEdges(s, items, descriptions).result.Success?
    requires ValidTables(descriptions[0].networkTableName, s.networks[descriptions[0].networkTableName])
    requires 0 <= k < |items|
    ensures var n := descriptions[0].networkTableName;
            && EdgeTarget(s, descriptions) == Success((n, columns))
            && |columns| == |descriptions|
            && (forall i :: 0 <= i < |descriptions| ==> columns[i] == Lower(descriptions[i].name))
            && t'.edgeColumns == s.networks[n].edgeColumns && UniqueIds(t'.edges) && UniquePairs(t'.edges)
            && |s.networks[n].edges| + k < |t'.edges| && |items[k].1| == |columns|
            && t'.edges[|s.networks[n].edges| + k]
                 == EdgeRow(Edge(s.networks[n].nextEdgeId + k, items[k].0.0, items[k].0.1), Assign(map[], columns, items[k].1))
            && AddAttributedEdges(s, items, descriptions).after == s.(networks := s.networks[n := t'])
  {
    columns, t' := AddAttributedEdgesWrites(s, items, descriptions);
    AppendedRow(s.networks[descriptions[0].networkTableName], t', columns, items, k);
  }

  /** Replacing network n's tables by t' stores, at position j, the row with this id holding
      these values in the columns the descriptions resolve to; ids stay unique. */
  ghost predicate RowStored(s: Store, n: string, t': NetworkTables, descriptions: seq<AttributeDescription>,
                            columns: seq<string>, j: int, identifier: int, values: seq<Value>) {
    && EdgeTarget(s, descriptions) == Success((n, columns))
    && t'.edgeColumns == s.networks[n].edgeColumns
    && UniqueIds(t'.edges)
    && 0 <= j < |t'.edges| && t'.edges[j].edge.identifier == identifier
    && |columns| == |values| && t'.edges[j].values == Assign(map[], columns, values)
  }

  /** The k-th row of a successful addAttributedEdges is stored under the k-th new id. */
  lemma {:induction false} AddAttributedEdgesStores(s: Store, items: seq<((int, int), seq<Value>)>, descriptions: seq<AttributeDescription>, k: int)
    returns (columns: seq<string>, t': NetworkTables)
    requires AddAttributedEdges(s, items, descriptions).result.Success?
    requires ValidTables(descriptions[0].networkTableName, s.networks[descriptions[0].networkTableName])
    requires 0 <= k < |items|
    ensures descriptions[0].networkTableName in s.networks
    ensures RowStored(s, descriptions[0].networkTableName, t', descriptions, columns,
                      |s.networks[descriptions[0].networkTableName].edges| + k,
                      s.networks[descriptions[0].networkTableName].nextEdgeId + k, items[k].1)
    ensures AddAttributedEdges(s, items, descriptions).after == s.(networks := s.networks[descriptions[0].networkTableName := t'])
  {
    columns, t' := AddAttributedEdgesRow(s, items, descriptions, k);
  }

  /** getEdge on a network whose tables were replaced by tables with unique endpoint pairs finds
      each row's id by its endpoints. */
  lemma {:induction false} EdgeReadBack(s: Store, n: string, t': NetworkTables, j: int, identifier: int, from: int, to: int)
    requires n in s.networks && s.networks[n].info.tableName == n
    requires UniquePairs(t'.edges)
    requires 0 <= j < |t'.edges| && t'.edges[j].edge == Edge(identifier, from, to)
    ensures GetEdge(s.(networks := s.networks[n := t']), s.networks[n].info, from, to) == Success(identifier)
  {
    PairFound(t'.edges, j);
  }

  /** getEdgeAttributes on a network whose tables were replaced by tables with the same attribute
      columns and unique ids reads the row with that id, when no two descriptions name the same
      column. */
  lemma {:induction false} AttributesReadBack(s: Store, n: string, t': NetworkTables, after: Store, descriptions: seq<AttributeDescription>,
                           columns: seq<string>, j: int, identifier: int, values: seq<Value>)
    requires after == s.(networks := s.networks[n := t'])
    requires RowStored(s, n, t', descriptions, columns, j, identifier, values)
    requires DistinctNames(descriptions)
    ensures GetEdgeAttributes(after, identifier, descriptions) == Success(values)
  {
    DistinctNamesColumns(descriptions, columns);
    ProjectAssign(map[], columns, values);
    EdgePositionUnique(t'.edges, j);
    assert EdgeTarget(after, descriptions) == Success((n, columns));
    WriteTargetIsReadTarget(after, descriptions);
    SelectEdgeOwnColumns(t'.edges[j], columns);
  }

  /** With unique pairs, the edge at position j is the one getEdge finds by its endpoints. */
  lemma PairFound(edges: seq<EdgeRow>, j: int)
    requires UniquePairs(edges) && 0 <= j < |edges|
    ensures FindByPair(edges, edges[j].edge.from, edges[j].edge.to) == Some(edges[j].edge.identifier)
  {
    var found := FindByPair(edges, edges[j].edge.from, edges[j].edge.to);
    assert found.Some? by {
      assert HasEdge(edges, edges[j].edge);
    }
    assert HasEdge(edges, Edge(found.value, edges[j].edge.from, edges[j].edge.to));
    var i :| 0 <= i < |edges| && edges[i].edge == Edge(found.value, edges[j].edge.from, edges[j].edge.to);
  }

  // ---------------------------------------------------------------- the invariant

  lemma {:induction false} InsertAttributedEdgesPreservesValidTables(name: string, t: NetworkTables, columns: seq<string>,
                                                                     items: seq<((int, int), seq<Value>)>)
    requires ValidTables(name, t) && Resolves(columns, t.edgeColumns)
    ensures ValidTables(name, InsertAttributedEdges(t, columns, items).0)
    decreases |items|
  {
    if |items| > 0 && |items[0].1| == |columns| {
      var values := Assign(map[], columns, items[0].1);
      AssignWithin(map[], columns, items[0].1, t.edgeColumns);
      InsertEdgePreservesValidTables(name, t, items[0].0.0, items[0].0.1, values);
      var (t1, r1) := InsertEdge(t, items[0].0.0, items[0].0.1, values);
      if r1.Success? {
        InsertAttributedEdgesPreservesValidTables(name, t1, columns, items[1..]);
      }
    }
  }

  lemma AddAttributedEdgesPreservesValid(s: Store, items: seq<((int, int), seq<Value>)>, descriptions: seq<AttributeDescription>)
    requires Valid(s)
    ensures Valid(AddAttributedEdges(s, items, descriptions).after)
  {
    if |items| > 0 && EdgeTarget(s, descriptions).Success? {
      var target := EdgeTarget(s, descriptions).value;
      InsertAttributedEdgesPreservesValidTables(target.0, s.networks[target.0], target.1, items);
      ReplaceTablesPreservesValid(s, target.0, InsertAttributedEdges(s.networks[target.0], target.1, items).0);
    }
  }

  lemma AddNodesPreservesValid(s: Store, pairs: seq<(int, seq<Value>)>, descriptions: seq<AttributeDescription>)
    requires Valid(s)
    ensures Valid(AddNodes(s, pairs, descriptions).after)
  {
    if NodeTarget(s, descriptions).Success? {
      var target := NodeTarget(s, descriptions).value;
      var t := s.networks[target.0];
      var t' := InsertNodes(t, target.1, pairs).0;
      assert ValidTables(target.0, t);
      forall v | v in t'.nodes ensures t'.nodes[v].Keys <= t'.nodeColumns {
        if v !in t.nodes {
          var i :| 0 <= i < |pairs| && pairs[i].0 == v && |pairs[i].1| == |target.1|
                   && t'.nodes[v] == Assign(map[], target.1, pairs[i].1);
          AssignWithin(map[], target.1, pairs[i].1, t.nodeColumns);
        }
      }
      ReplaceTablesPreservesValid(s, target.0, t');
    }
  }

  lemma AddNodeAttributesPreservesValid(s: Store, nodes: seq<(int, seq<Value>)>, descriptions: seq<AttributeDescription>)
    requires Valid(s)
    ensures Valid(AddNodeAttributes(s, nodes, descriptions).after)
  {
    if |nodes| > 0 && GetSchema(NodeAttribute, descriptions).Success? && |nodes[0].1| == |descriptions|
       && NodeTarget(s, descriptions).Success? {
      var target := NodeTarget(s, descriptions).value;
      var t := s.networks[target.0];
      var t' := UpdateNodes(t, descriptions, target.1, nodes).0;
      assert ValidTables(target.0, t);
      ReplaceTablesPreservesValid(s, target.0, t');
    }
  }
}
