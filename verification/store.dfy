/** The container's tables as a functional state, and the network catalog and edge operations
    of GeoPackageNetworkExtension as transitions on it. Every mutating operation returns the
    state its connection sees afterwards together with its result or error. */
module Store {
  import opened Common
  import opened Schema

  /** An edge as the Java Edge record carries it: store-assigned id, 'from' and 'to' nodes. */
  datatype Edge = Edge(identifier: int, from: int, to: int)

  /** A table row's attribute cells, keyed by lower-cased column name; a missing key reads as NULL. */
  type Row = map<string, Value>

  datatype EdgeRow = EdgeRow(edge: Edge, values: Row)

  /** The content-table metadata a Network handle carries (bounding box and timestamp left out). */
  datatype Network = Network(tableName: string, identifier: string, description: string, srsId: int)

  /** The edge table (in rowid order, with its AUTOINCREMENT counter) and the node-attribute
      table of one network, each with the attribute columns added by ALTER TABLE. */
  datatype NetworkTables = NetworkTables(
    info: Network,
    edges: seq<EdgeRow>,
    nextEdgeId: int,
    edgeColumns: set<string>,
    nodes: map<int, Row>,
    nodeColumns: set<string>)

  /** Every table name present, the networks by edge-table name, the attribute description
      table in rowid order with its counter, and whether the extension row is registered. */
  datatype Store = Store(
    tables: set<string>,
    networks: map<string, NetworkTables>,
    descriptions: seq<AttributeDescription>,
    nextDescriptionId: int,
    extensionRegistered: bool)

  /** The state after an operation and what the operation returned or threw. */
  datatype Outcome<T> = Outcome(after: Store, result: Result<T>)

  const AttributeDescriptionTableName: string := "network_attribute_description"
  const ExtensionName: string := "SWAGD_network"

  /** Columns created with the tables themselves. */
  const EdgeTableColumns: set<string> := {"id", "from_node", "to_node"}
  const NodeTableColumns: set<string> := {"node_id"}

  function ColumnsOf(t: NetworkTables, attributedType: AttributedType): set<string> {
    if attributedType == EdgeAttribute then t.edgeColumns else t.nodeColumns
  }

  function FixedColumns(attributedType: AttributedType): set<string> {
    if attributedType == EdgeAttribute then EdgeTableColumns else NodeTableColumns
  }

  // ---------------------------------------------------------------- invariants

  ghost predicate UniqueIds(edges: seq<EdgeRow>) {
    forall i, j :: 0 <= i < j < |edges| ==> edges[i].edge.identifier != edges[j].edge.identifier
  }

  /** The UNIQUE (from_node, to_node) constraint of the edge table. */
  ghost predicate UniquePairs(edges: seq<EdgeRow>) {
    forall i, j :: 0 <= i < j < |edges| ==>
      edges[i].edge.from != edges[j].edge.from || edges[i].edge.to != edges[j].edge.to
  }

  ghost predicate ValidTables(name: string, t: NetworkTables) {
    && t.info.tableName == name
    && t.nextEdgeId >= 1
    && (forall i :: 0 <= i < |t.edges| ==>
          1 <= t.edges[i].edge.identifier < t.nextEdgeId && t.edges[i].values.Keys <= t.edgeColumns)
    && UniqueIds(t.edges)
    && UniquePairs(t.edges)
    && (forall v :: v in t.nodes ==> t.nodes[v].Keys <= t.nodeColumns)
    && t.edgeColumns !! EdgeTableColumns
    && t.nodeColumns !! NodeTableColumns
  }

  /** Every description names an existing network and a column of the table it attributes. */
  ghost predicate DescriptionsHaveColumns(s: Store) {
    forall i :: 0 <= i < |s.descriptions| ==>
      && s.descriptions[i].networkTableName in s.networks
      && Lower(s.descriptions[i].name) in ColumnsOf(s.networks[s.descriptions[i].networkTableName], s.descriptions[i].attributedType)
      && s.descriptions[i].identifier < s.nextDescriptionId
  }

  predicate Describes(d: AttributeDescription, table: string, attributedType: AttributedType, column: string) {
    d.networkTableName == table && d.attributedType == attributedType && Lower(d.name) == column
  }

  /** Every attribute column was added by some description. */
  ghost predicate ColumnsHaveDescriptions(s: Store) {
    forall n, at: AttributedType, c :: n in s.networks && c in ColumnsOf(s.networks[n], at) ==>
      exists i :: 0 <= i < |s.descriptions| && Describes(s.descriptions[i], n, at, c)
  }

  /** No two descriptions of one table and attributed type share a column; this implies the
      UNIQUE (table_name, name, attributed_type) constraint of the description table. */
  ghost predicate DistinctColumns(descriptions: seq<AttributeDescription>) {
    forall i, j :: 0 <= i < j < |descriptions| ==>
      descriptions[i].networkTableName != descriptions[j].networkTableName
      || descriptions[i].attributedType != descriptions[j].attributedType
      || Lower(descriptions[i].name) != Lower(descriptions[j].name)
  }

  /** The invariant every operation of the model preserves: both tables of every network
      exist, edges are unique, and the description registry and the physical columns agree. */
  ghost predicate Valid(s: Store) {
    && (forall n :: n in s.networks ==>
          n != "" && n in s.tables && NodeTableName(n) in s.tables && ValidTables(n, s.networks[n]))
    && (s.networks != map[] ==> AttributeDescriptionTableName in s.tables)
    && CaseDistinct(s.tables)
    && DescriptionsHaveColumns(s)
    && ColumnsHaveDescriptions(s)
    && DistinctColumns(s.descriptions)
  }

  // ---------------------------------------------------------------- edge table queries

  ghost predicate HasEdge(edges: seq<EdgeRow>, e: Edge) {
    exists j :: 0 <= j < |edges| && edges[j].edge == e
  }

  lemma HasEdgeSplit(edges: seq<EdgeRow>)
    requires |edges| > 0
    ensures forall e :: HasEdge(edges, e) <==> edges[0].edge == e || HasEdge(edges[1..], e)
  {
    forall e ensures HasEdge(edges, e) ==> edges[0].edge == e || HasEdge(edges[1..], e) {
      if HasEdge(edges, e) {
        var j :| 0 <= j < |edges| && edges[j].edge == e;
        if j > 0 { assert edges[1..][j - 1].edge == e; }
      }
    }
    forall e | HasEdge(edges[1..], e) ensures HasEdge(edges, e) {
      var j :| 0 <= j < |edges[1..]| && edges[1..][j].edge == e;
      assert edges[j + 1].edge == e;
    }
  }

  /** The rows of "SELECT ... WHERE from_node = ?". The statement has no ORDER BY, so the
      order of the rows is unspecified; the model lists them in table order, and nothing proved
      about them depends on that order. */
  function Exits(edges: seq<EdgeRow>, node: int): (r: seq<Edge>)
    ensures forall e :: e in r <==> HasEdge(edges, e) && e.from == node
  {
    if |edges| == 0 then []
    else
      var rest := Exits(edges[1..], node);
      HasEdgeSplit(edges);
      if edges[0].edge.from == node then [edges[0].edge] + rest else rest
  }

  /** The rows of "SELECT ... WHERE to_node = ?". The statement has no ORDER BY, so the
      order of the rows is unspecified; the model lists them in table order, and nothing proved
      about them depends on that order. */
  function Entries(edges: seq<EdgeRow>, node: int): (r: seq<Edge>)
    ensures forall e :: e in r <==> HasEdge(edges, e) && e.to == node
  {
    if |edges| == 0 then []
    else
      var rest := Entries(edges[1..], node);
      HasEdgeSplit(edges);
      if edges[0].edge.to == node then [edges[0].edge] + rest else rest
  }

  /** "SELECT id ... WHERE from_node = ? AND to_node = ? LIMIT 1". */
  function FindByPair(edges: seq<EdgeRow>, from: int, to: int): (r: Option<int>)
    ensures r.Some? ==> HasEdge(edges, Edge(r.value, from, to))
    ensures r.None? <==> forall j :: 0 <= j < |edges| ==> edges[j].edge.from != from || edges[j].edge.to != to
  {
    if |edges| == 0 then None
    else if edges[0].edge.from == from && edges[0].edge.to == to then Some(edges[0].edge.identifier)
    else
      HasEdgeSplit(edges);
      assert forall j :: 1 <= j < |edges| ==> edges[j] == edges[1..][j - 1];
      FindByPair(edges[1..], from, to)
  }

  /** "SELECT from_node, to_node ... WHERE id = ? LIMIT 1". */
  function FindById(edges: seq<EdgeRow>, identifier: int): (r: Option<Edge>)
    ensures r.Some? ==> HasEdge(edges, r.value) && r.value.identifier == identifier
    ensures r.None? <==> forall j :: 0 <= j < |edges| ==> edges[j].edge.identifier != identifier
  {
    if |edges| == 0 then None
    else if edges[0].edge.identifier == identifier then Some(edges[0].edge)
    else
      HasEdgeSplit(edges);
      assert forall j :: 1 <= j < |edges| ==> edges[j] == edges[1..][j - 1];
      FindById(edges[1..], identifier)
  }

  /** The node ids "SELECT from_node ... UNION SELECT to_node ..." yields. */
  function Endpoints(edges: seq<EdgeRow>): set<int> {
    (set j | 0 <= j < |edges| :: edges[j].edge.from) + (set j | 0 <= j < |edges| :: edges[j].edge.to)
  }

  /** A node is counted exactly when some edge of the table starts or ends at it. */
  lemma EndpointsAreEdgeEnds(edges: seq<EdgeRow>, v: int)
    ensures v in Endpoints(edges) <==> exists e :: HasEdge(edges, e) && (e.from == v || e.to == v)
  {
    if exists e :: HasEdge(edges, e) && (e.from == v || e.to == v) {
      var e :| HasEdge(edges, e) && (e.from == v || e.to == v);
      var j :| 0 <= j < |edges| && edges[j].edge == e;
      assert edges[j].edge.from in Endpoints(edges) && edges[j].edge.to in Endpoints(edges);
    }
    if v in Endpoints(edges) {
      var j :| 0 <= j < |edges| && (edges[j].edge.from == v || edges[j].edge.to == v);
      assert HasEdge(edges, edges[j].edge);
    }
  }

  // ---------------------------------------------------------------- catalog

  /** The naming rule addNetwork documents for network tables: a letter or underscore, then
      letters, digits or underscores, and not the reserved "gpkg_" prefix. */
  predicate ValidTableName(name: string) {
    && |name| > 0
    && (IsLetter(name[0]) || name[0] == '_')
    && (forall i :: 1 <= i < |name| ==> IsLetter(name[i]) || IsDigit(name[i]) || name[i] == '_')
    && !(|name| >= 5 && name[..5] == "gpkg_")
  }

  function EmptyNetwork(info: Network): NetworkTables {
    NetworkTables(info, [], 1, {}, map[], {})
  }

  /** getNetwork: the content entry of a network table, or nothing. */
  function GetNetwork(s: Store, tableName: string): (r: Option<Network>)
    ensures r.Some? <==> tableName in s.networks
  {
    if tableName in s.networks then Some(s.networks[tableName].info) else None
  }

  /** SQLite compares table names ignoring ASCII case: CREATE TABLE fails when a table whose
      name differs from the new one at most in case already exists. */
  predicate NameTaken(tables: set<string>, name: string) {
    exists t :: t in tables && Lower(t) == Lower(name)
  }

  /** No two tables have names that differ only in case. */
  ghost predicate CaseDistinct(tables: set<string>) {
    forall a, b :: a in tables && b in tables && Lower(a) == Lower(b) ==> a == b
  }

  /** The CREATE TABLE statements of addNetwork all succeed: the registry table already exists
      or its name is free, and then neither the network table nor its node table clashes. */
  predicate Creatable(tables: set<string>, tableName: string) {
    && (AttributeDescriptionTableName in tables || !NameTaken(tables, AttributeDescriptionTableName))
    && !NameTaken(tables + {AttributeDescriptionTableName}, tableName)
    && !NameTaken(tables + {AttributeDescriptionTableName}, NodeTableName(tableName))
  }

  /** addNetwork. The content registration and the extension registration are calls into
      collaborators; whether each succeeds is a parameter. The existence checks compare names
      exactly and fail with TableExists; a CREATE TABLE that clashes only up to case fails in
      SQLite. Everything up to the commit is rolled back on failure; the extension registration
      runs after the commit. */
  function AddNetwork(s: Store, tableName: string, identifier: string, description: string, srsId: int,
                      contentAdded: bool, extensionAdded: bool): (r: Outcome<Network>)
    ensures r.result.Success? <==>
              && ValidTableName(tableName)
              && Creatable(s.tables, tableName)
              && contentAdded
              && (s.extensionRegistered || extensionAdded)
    ensures r.result == Failure(InvalidName) <==> !ValidTableName(tableName)
    ensures ValidTableName(tableName) && (tableName in s.tables || NodeTableName(tableName) in s.tables) ==>
              r == Outcome(s, Failure(TableExists))
    ensures (&& ValidTableName(tableName) && !Creatable(s.tables, tableName)
             && tableName !in s.tables && NodeTableName(tableName) !in s.tables) ==> r == Outcome(s, Failure(StoreError))
    ensures !contentAdded ==> r.after == s && r.result.Failure?
    ensures r.after != s ==>
              && Creatable(s.tables, tableName)
              && r.after.tables == s.tables + {AttributeDescriptionTableName, tableName, NodeTableName(tableName)}
              && r.after.networks == s.networks[tableName := EmptyNetwork(Network(tableName, identifier, description, srsId))]
              && r.after.descriptions == s.descriptions
    ensures r.result.Success? ==> r.after != s && r.after.extensionRegistered
                                  && r.result.value == Network(tableName, identifier, description, srsId)
                                  && GetNetwork(r.after, tableName) == Some(r.result.value)
  {
    if !ValidTableName(tableName) then Outcome(s, Failure(InvalidName))
    else if tableName in s.tables then Outcome(s, Failure(TableExists))
    else if NodeTableName(tableName) in s.tables then Outcome(s, Failure(TableExists))
    else if AttributeDescriptionTableName !in s.tables && NameTaken(s.tables, AttributeDescriptionTableName) then
      Outcome(s, Failure(StoreError))
    else
      var withRegistry := s.tables + {AttributeDescriptionTableName};
      if NameTaken(withRegistry, tableName) || NameTaken(withRegistry, NodeTableName(tableName)) then
        Outcome(s, Failure(StoreError))
      else if !contentAdded then Outcome(s, Failure(StoreError))
      else
        var info := Network(tableName, identifier, description, srsId);
        var committed := s.(tables := s.tables + {AttributeDescriptionTableName, tableName, NodeTableName(tableName)},
                            networks := s.networks[tableName := EmptyNetwork(info)]);
        assert tableName in committed.tables && tableName !in s.tables;
        if s.extensionRegistered || extensionAdded then Outcome(committed.(extensionRegistered := true), Success(info))
        else Outcome(committed, Failure(StoreError))
  }

  /** Adding a name no table takes, even up to case, keeps the names distinct up to case. */
  lemma AddFreeName(tables: set<string>, name: string)
    requires CaseDistinct(tables) && !NameTaken(tables, name)
    ensures CaseDistinct(tables + {name})
  {
  }

  /** The three tables addNetwork creates keep the names distinct up to case. */
  lemma CreatedTablesCaseDistinct(tables: set<string>, tableName: string)
    requires CaseDistinct(tables) && Creatable(tables, tableName)
    ensures CaseDistinct(tables + {AttributeDescriptionTableName, tableName, NodeTableName(tableName)})
  {
    var withRegistry := tables + {AttributeDescriptionTableName};
    if AttributeDescriptionTableName !in tables {
      AddFreeName(tables, AttributeDescriptionTableName);
    } else {
      assert withRegistry == tables;
    }
    AddFreeName(withRegistry, tableName);
    assert Lower(tableName) != Lower(NodeTableName(tableName)) by {
      assert |Lower(NodeTableName(tableName))| == |tableName| + 16;
    }
    AddFreeName(withRegistry + {tableName}, NodeTableName(tableName));
    assert tables + {AttributeDescriptionTableName, tableName, NodeTableName(tableName)}
           == withRegistry + {tableName} + {NodeTableName(tableName)};
  }

  lemma AddNetworkPreservesValid(s: Store, tableName: string, identifier: string, description: string, srsId: int,
                                 contentAdded: bool, extensionAdded: bool)
    requires Valid(s)
    ensures Valid(AddNetwork(s, tableName, identifier, description, srsId, contentAdded, extensionAdded).after)
  {
    var r := AddNetwork(s, tableName, identifier, description, srsId, contentAdded, extensionAdded);
    if r.after != s {
      var info := Network(tableName, identifier, description, srsId);
      CreateNetworkPreservesValid(s, tableName, info, r.after.extensionRegistered);
      assert r.after == s.(tables := s.tables + {AttributeDescriptionTableName, tableName, NodeTableName(tableName)},
                           networks := s.networks[tableName := EmptyNetwork(info)],
                           extensionRegistered := r.after.extensionRegistered);
    }
  }

  /** Creating the tables of a new, empty network under a free name keeps the store valid. */
  lemma CreateNetworkPreservesValid(s: Store, tableName: string, info: Network, registered: bool)
    requires Valid(s) && tableName != "" && info.tableName == tableName && Creatable(s.tables, tableName)
    ensures Valid(s.(tables := s.tables + {AttributeDescriptionTableName, tableName, NodeTableName(tableName)},
                     networks := s.networks[tableName := EmptyNetwork(info)],
                     extensionRegistered := registered))
  {
    var s' := s.(tables := s.tables + {AttributeDescriptionTableName, tableName, NodeTableName(tableName)},
                 networks := s.networks[tableName := EmptyNetwork(info)],
                 extensionRegistered := registered);
    CreatedTablesCaseDistinct(s.tables, tableName);
    CreatableIsFresh(s.tables, tableName);
    CreatedNetworkTables(s, s', tableName, info);
    CreatedNetworkDescriptions(s, s', tableName, info);
  }

  lemma CreatedNetworkTables(s: Store, s': Store, tableName: string, info: Network)
    requires Valid(s) && tableName != "" && info.tableName == tableName
    requires s'.tables == s.tables + {AttributeDescriptionTableName, tableName, NodeTableName(tableName)}
    requires s'.networks == s.networks[tableName := EmptyNetwork(info)]
    ensures forall n :: n in s'.networks ==>
              n != "" && n in s'.tables && NodeTableName(n) in s'.tables && ValidTables(n, s'.networks[n])
  {
  }

  lemma CreatedNetworkDescriptions(s: Store, s': Store, tableName: string, info: Network)
    requires Valid(s) && tableName !in s.networks
    requires s'.networks == s.networks[tableName := EmptyNetwork(info)]
    requires s'.descriptions == s.descriptions && s'.nextDescriptionId == s.nextDescriptionId
    ensures DescriptionsHaveColumns(s') && ColumnsHaveDescriptions(s')
  {
    forall i | 0 <= i < |s'.descriptions|
      ensures s'.networks[s'.descriptions[i].networkTableName] == s.networks[s.descriptions[i].networkTableName]
    {
      assert s.descriptions[i].networkTableName in s.networks;
    }
    forall n, at: AttributedType, c | n in s'.networks && c in ColumnsOf(s'.networks[n], at)
      ensures exists i :: 0 <= i < |s'.descriptions| && Describes(s'.descriptions[i], n, at, c)
    {
      assert n != tableName;
    }
  }

  /** A name addNetwork can create is not yet a table, nor is its node table. */
  lemma CreatableIsFresh(tables: set<string>, tableName: string)
    requires Creatable(tables, tableName)
    ensures tableName !in tables && NodeTableName(tableName) !in tables
  {
    assert Lower(tableName) == Lower(tableName);
  }

  /** Creating a network whose name is taken fails and leaves exactly the one network. */
  lemma {:induction false} AddNetworkTwiceFails(s: Store, tableName: string, identifier: string, description: string,
                                                srsId: int, extensionAdded: bool, identifier': string,
                                                description': string, srsId': int, extensionAdded': bool)
    requires ValidTableName(tableName) && Creatable(s.tables, tableName)
    ensures var first := AddNetwork(s, tableName, identifier, description, srsId, true, extensionAdded);
            var second := AddNetwork(first.after, tableName, identifier', description', srsId', true, extensionAdded');
            && second.result == Failure(TableExists)
            && second.after == first.after
            && GetNetwork(second.after, tableName) == Some(Network(tableName, identifier, description, srsId))
  {
    var first := AddNetwork(s, tableName, identifier, description, srsId, true, extensionAdded);
    assert tableName !in s.tables by {
      assert Lower(tableName) == Lower(tableName);
    }
    assert first.after != s by {
      assert tableName in first.after.tables;
    }
  }

  /** In a valid store holding the network "roads", a network "Roads" cannot be created: the
      exact-name checks pass, but its CREATE TABLE clashes with "roads". */
  lemma AddNetworkComparesNamesIgnoringCase(s: Store, identifier: string, description: string, srsId: int,
                                            contentAdded: bool, extensionAdded: bool)
    requires Valid(s) && "roads" in s.networks
    ensures AddNetwork(s, "Roads", identifier, description, srsId, contentAdded, extensionAdded)
            == Outcome(s, Failure(StoreError))
  {
    assert Lower("Roads") == Lower("roads") by {
      assert LowerChar('R') == 'r';
    }
    assert "Roads" != "roads" by {
      assert "Roads"[0] != "roads"[0];
    }
    assert "roads" in s.tables && "Roads" !in s.tables;
    assert NodeTableName("Roads") !in s.tables by {
      assert Lower(NodeTableName("Roads")) == Lower(NodeTableName("roads")) by {
        assert LowerChar('R') == 'r';
      }
      assert NodeTableName("Roads")[0] != NodeTableName("roads")[0];
    }
    assert NameTaken(s.tables + {AttributeDescriptionTableName}, "Roads");
  }

  // ---------------------------------------------------------------- counts and lookups

  /** getEdgeCount: "SELECT COUNT(*)" over the edge table. */
  function GetEdgeCount(s: Store, network: Network): (r: Result<int>)
    ensures r.Failure? <==> network.tableName !in s.networks
    ensures r.Success? ==> r.value == |s.networks[network.tableName].edges|
  {
    if network.tableName !in s.networks then Failure(StoreError)
    else Success(|s.networks[network.tableName].edges|)
  }

  /** getNodeCount: the number of distinct ids among all 'from' and 'to' nodes. */
  function GetNodeCount(s: Store, network: Network): (r: Result<int>)
    ensures r.Failure? <==> network.tableName !in s.networks
    ensures r.Success? ==> 0 <= r.value <= 2 * |s.networks[network.tableName].edges|
  {
    if network.tableName !in s.networks then Failure(StoreError)
    else
      NodeCountAtMostTwiceEdgeCount(s.networks[network.tableName].edges);
      Success(|Endpoints(s.networks[network.tableName].edges)|)
  }

  /** getEdge(network, from, to): the id of the edge, or an IllegalArgumentException. */
  function GetEdge(s: Store, network: Network, from: int, to: int): (r: Result<int>)
    ensures network.tableName !in s.networks ==> r == Failure(StoreError)
    ensures network.tableName in s.networks ==>
              && (r.Success? ==> HasEdge(s.networks[network.tableName].edges, Edge(r.value, from, to)))
              && (r.Failure? ==> r.error == NotFound
                                 && forall e :: HasEdge(s.networks[network.tableName].edges, e) ==> e.from != from || e.to != to)
  {
    if network.tableName !in s.networks then Failure(StoreError)
    else
      match FindByPair(s.networks[network.tableName].edges, from, to)
      case Some(id) => Success(id)
      case None => Failure(NotFound)
  }

  /** getEdge(network, id): the edge with that id, or null. */
  function GetEdgeById(s: Store, network: Network, identifier: int): (r: Result<Option<Edge>>)
    ensures network.tableName !in s.networks ==> r == Failure(StoreError)
    ensures network.tableName in s.networks ==>
              && r.Success?
              && (r.value.Some? ==> r.value.value.identifier == identifier
                                    && HasEdge(s.networks[network.tableName].edges, r.value.value))
              && (r.value.None? ==> forall e :: HasEdge(s.networks[network.tableName].edges, e) ==> e.identifier != identifier)
  {
    if network.tableName !in s.networks then Failure(StoreError)
    else Success(FindById(s.networks[network.tableName].edges, identifier))
  }

  /** getExits: the outgoing edges of a node. */
  function GetExits(s: Store, network: Network, node: int): (r: Result<seq<Edge>>)
    ensures r.Failure? <==> network.tableName !in s.networks
    ensures r.Success? ==> forall e :: e in r.value <==> HasEdge(s.networks[network.tableName].edges, e) && e.from == node
  {
    if network.tableName !in s.networks then Failure(StoreError)
    else Success(Exits(s.networks[network.tableName].edges, node))
  }

  /** getEntries: the incoming edges of a node. */
  function GetEntries(s: Store, network: Network, node: int): (r: Result<seq<Edge>>)
    ensures r.Failure? <==> network.tableName !in s.networks
    ensures r.Success? ==> forall e :: e in r.value <==> HasEdge(s.networks[network.tableName].edges, e) && e.to == node
  {
    if network.tableName !in s.networks then Failure(StoreError)
    else Success(Entries(s.networks[network.tableName].edges, node))
  }

  /** visitEdges: the edges handed to the consumer, one per row, in table order. */
  function VisitEdges(s: Store, network: Network): (r: Result<seq<Edge>>)
    ensures r.Failure? <==> network.tableName !in s.networks
    ensures r.Success? ==> |r.value| == |s.networks[network.tableName].edges|
                           && forall e :: e in r.value <==> HasEdge(s.networks[network.tableName].edges, e)
  {
    if network.tableName !in s.networks then Failure(StoreError)
    else
      var edges := s.networks[network.tableName].edges;
      var visited := seq(|edges|, i requires 0 <= i < |edges| => edges[i].edge);
      VisitedEdges(edges, visited);
      Success(visited)
  }

  lemma VisitedEdges(edges: seq<EdgeRow>, visited: seq<Edge>)
    requires |visited| == |edges| && forall i :: 0 <= i < |edges| ==> visited[i] == edges[i].edge
    ensures forall e :: e in visited <==> HasEdge(edges, e)
  {
    forall e | HasEdge(edges, e) ensures e in visited {
      var j :| 0 <= j < |edges| && edges[j].edge == e;
      assert visited[j] == e;
    }
  }

  // ---------------------------------------------------------------- inserting edges

  /** One "INSERT INTO <network> (from_node, to_node[, columns]) VALUES (...)": the UNIQUE pair
      constraint rejects a repeated pair; otherwise the row gets the next AUTOINCREMENT id. */
  function InsertEdge(t: NetworkTables, from: int, to: int, values: Row): (r: (NetworkTables, Result<int>))
    ensures FindByPair(t.edges, from, to).Some? ==> r == (t, Failure(ConstraintViolation))
    ensures FindByPair(t.edges, from, to).None? ==>
              r == (t.(edges := t.edges + [EdgeRow(Edge(t.nextEdgeId, from, to), values)], nextEdgeId := t.nextEdgeId + 1),
                    Success(t.nextEdgeId))
  {
    if FindByPair(t.edges, from, to).Some? then (t, Failure(ConstraintViolation))
    else
      (t.(edges := t.edges + [EdgeRow(Edge(t.nextEdgeId, from, to), values)], nextEdgeId := t.nextEdgeId + 1),
       Success(t.nextEdgeId))
  }

  /** addEdge. */
  function AddEdge(s: Store, network: Network, from: int, to: int): (r: Outcome<int>)
    ensures network.tableName !in s.networks ==> r == Outcome(s, Failure(StoreError))
    ensures r.result.Failure? ==> r.after == s
    ensures network.tableName in s.networks ==>
              (r.result.Failure? <==> exists e :: HasEdge(s.networks[network.tableName].edges, e) && e.from == from && e.to == to)
    ensures network.tableName in s.networks && r.result.Success? ==>
              r.after == s.(networks := s.networks[network.tableName := InsertEdge(s.networks[network.tableName], from, to, map[]).0])
  {
    if network.tableName !in s.networks then Outcome(s, Failure(StoreError))
    else
      var t := s.networks[network.tableName];
      var (t', result) := InsertEdge(t, from, to, map[]);
      if result.Failure? then Outcome(s, result)
      else Outcome(s.(networks := s.networks[network.tableName := t']), result)
  }

  /** A successful addEdge makes getEdge(from, to) answer the id it produced and getEdge(id)
      answer the edge; it adds one edge and only the two endpoints to the node set. */
  lemma AddEdgeThenGetEdge(s: Store, network: Network, from: int, to: int)
    requires Valid(s)
    requires AddEdge(s, network, from, to).result.Success?
    ensures var r := AddEdge(s, network, from, to);
            && GetEdge(r.after, network, from, to) == r.result
            && GetEdgeById(r.after, network, r.result.value) == Success(Some(Edge(r.result.value, from, to)))
            && GetEdgeCount(r.after, network).value == GetEdgeCount(s, network).value + 1
            && Endpoints(r.after.networks[network.tableName].edges) == Endpoints(s.networks[network.tableName].edges) + {from, to}
  {
    var r := AddEdge(s, network, from, to);
    var t := s.networks[network.tableName];
    var edges' := r.after.networks[network.tableName].edges;
    assert edges' == t.edges + [EdgeRow(Edge(t.nextEdgeId, from, to), map[])];
    FindByPairOfAppended(t.edges, EdgeRow(Edge(t.nextEdgeId, from, to), map[]));
    FindByIdOfAppended(t.edges, EdgeRow(Edge(t.nextEdgeId, from, to), map[]));
    EndpointsOfAppended(t.edges, EdgeRow(Edge(t.nextEdgeId, from, to), map[]));
  }

  lemma {:induction false} FindByPairOfAppended(edges: seq<EdgeRow>, row: EdgeRow)
    requires FindByPair(edges, row.edge.from, row.edge.to).None?
    ensures FindByPair(edges + [row], row.edge.from, row.edge.to) == Some(row.edge.identifier)
  {
    if |edges| > 0 {
      assert (edges + [row])[1..] == edges[1..] + [row];
      FindByPairOfAppended(edges[1..], row);
    }
  }

  lemma {:induction false} FindByIdOfAppended(edges: seq<EdgeRow>, row: EdgeRow)
    requires forall j :: 0 <= j < |edges| ==> edges[j].edge.identifier != row.edge.identifier
    ensures FindById(edges + [row], row.edge.identifier) == Some(row.edge)
  {
    if |edges| > 0 {
      assert (edges + [row])[1..] == edges[1..] + [row];
      FindByIdOfAppended(edges[1..], row);
    }
  }

  lemma EndpointsOfAppended(edges: seq<EdgeRow>, row: EdgeRow)
    ensures Endpoints(edges + [row]) == Endpoints(edges) + {row.edge.from, row.edge.to}
  {
    var e' := edges + [row];
    assert e'[|edges|] == row;
    assert forall j :: 0 <= j < |edges| ==> e'[j] == edges[j];
  }

  /** A duplicate addEdge fails and changes nothing. */
  lemma AddEdgeTwiceFails(s: Store, network: Network, from: int, to: int)
    requires Valid(s)
    requires AddEdge(s, network, from, to).result.Success?
    ensures var first := AddEdge(s, network, from, to);
            AddEdge(first.after, network, from, to) == Outcome(first.after, Failure(ConstraintViolation))
  {
    AddEdgeThenGetEdge(s, network, from, to);
  }

  lemma AddEdgePreservesValid(s: Store, network: Network, from: int, to: int)
    requires Valid(s)
    ensures Valid(AddEdge(s, network, from, to).after)
  {
    var r := AddEdge(s, network, from, to);
    if r.result.Success? {
      var t := s.networks[network.tableName];
      InsertEdgePreservesValidTables(network.tableName, t, from, to, map[]);
      ReplaceTablesPreservesValid(s, network.tableName, r.after.networks[network.tableName]);
    }
  }

  lemma InsertEdgePreservesValidTables(name: string, t: NetworkTables, from: int, to: int, values: Row)
    requires ValidTables(name, t)
    requires values.Keys <= t.edgeColumns
    ensures ValidTables(name, InsertEdge(t, from, to, values).0)
  {
    var r := InsertEdge(t, from, to, values);
    if r.1.Success? {
      var edges' := r.0.edges;
      assert edges'[|t.edges|].edge == Edge(t.nextEdgeId, from, to);
      assert forall i :: 0 <= i < |t.edges| ==> edges'[i] == t.edges[i];
      forall i, j | 0 <= i < j < |edges'|
        ensures edges'[i].edge.from != edges'[j].edge.from || edges'[i].edge.to != edges'[j].edge.to
      {
        if j == |t.edges| {
          assert edges'[i] == t.edges[i];
        }
      }
    }
  }

  /** Replacing one network's tables by tables with the same columns (and the invariant of
      its own) keeps the store valid. */
  lemma ReplaceTablesPreservesValid(s: Store, name: string, t': NetworkTables)
    requires Valid(s)
    requires name in s.networks
    requires ValidTables(name, t')
    requires t'.edgeColumns == s.networks[name].edgeColumns && t'.nodeColumns == s.networks[name].nodeColumns
    ensures Valid(s.(networks := s.networks[name := t']))
  {
    var s' := s.(networks := s.networks[name := t']);
    assert forall n, at: AttributedType :: n in s.networks ==> ColumnsOf(s'.networks[n], at) == ColumnsOf(s.networks[n], at);
  }

  /** addEdges: one INSERT per pair and a single commit. A failing pair aborts the method but
      nothing rolls back, so the pairs inserted before it stay in the open transaction. */
  function InsertEdges(t: NetworkTables, pairs: seq<(int, int)>): (r: (NetworkTables, Result<()>))
    ensures |t.edges| <= |r.0.edges| <= |t.edges| + |pairs|
    ensures r.0.edges[..|t.edges|] == t.edges
    ensures r.0.nextEdgeId == t.nextEdgeId + (|r.0.edges| - |t.edges|)
    ensures r.0.edgeColumns == t.edgeColumns && r.0.nodeColumns == t.nodeColumns && r.0.nodes == t.nodes && r.0.info == t.info
    ensures forall i :: 0 <= i < |r.0.edges| - |t.edges| ==>
              r.0.edges[|t.edges| + i] == EdgeRow(Edge(t.nextEdgeId + i, pairs[i].0, pairs[i].1), map[])
    ensures r.1.Success? <==> |r.0.edges| == |t.edges| + |pairs|
    ensures r.1.Failure? ==> r.1.error == ConstraintViolation
                             && var k := |r.0.edges| - |t.edges|;
                                FindByPair(r.0.edges, pairs[k].0, pairs[k].1).Some?
    decreases |pairs|
  {
    if |pairs| == 0 then (t, Success(()))
    else
      var (t1, r1) := InsertEdge(t, pairs[0].0, pairs[0].1, map[]);
      if r1.Failure? then (t1, Failure(r1.error))
      else
        var r := InsertEdges(t1, pairs[1..]);
        BatchAfterOneRow(t, t1, pairs, r.0.edges);
        r
  }

  /** The rows of a batch that runs after its first pair was inserted are, seen from before that
      insertion, the rows of the whole batch. */
  lemma BatchAfterOneRow(t: NetworkTables, t1: NetworkTables, pairs: seq<(int, int)>, edges: seq<EdgeRow>)
    requires |pairs| > 0
    requires t1.edges == t.edges + [EdgeRow(Edge(t.nextEdgeId, pairs[0].0, pairs[0].1), map[])]
    requires t1.nextEdgeId == t.nextEdgeId + 1
    requires |t1.edges| <= |edges| <= |t1.edges| + |pairs| - 1 && edges[..|t1.edges|] == t1.edges
    requires forall i :: 0 <= i < |edges| - |t1.edges| ==>
               edges[|t1.edges| + i] == EdgeRow(Edge(t1.nextEdgeId + i, pairs[1..][i].0, pairs[1..][i].1), map[])
    ensures edges[..|t.edges|] == t.edges
    ensures forall i :: 0 <= i < |edges| - |t.edges| ==>
              edges[|t.edges| + i] == EdgeRow(Edge(t.nextEdgeId + i, pairs[i].0, pairs[i].1), map[])
  {
    assert edges[..|t.edges|] == t1.edges[..|t.edges|];
    forall i | 0 <= i < |edges| - |t.edges|
      ensures edges[|t.edges| + i] == EdgeRow(Edge(t.nextEdgeId + i, pairs[i].0, pairs[i].1), map[])
    {
      if i > 0 {
        assert pairs[1..][i - 1] == pairs[i];
      }
    }
  }

  function AddEdges(s: Store, network: Network, pairs: seq<(int, int)>): (r: Outcome<()>)
    ensures network.tableName !in s.networks ==> r == Outcome(s, Failure(StoreError))
    ensures network.tableName in s.networks ==>
              r.after == s.(networks := s.networks[network.tableName := InsertEdges(s.networks[network.tableName], pairs).0])
              && r.result == InsertEdges(s.networks[network.tableName], pairs).1
  {
    if network.tableName !in s.networks then Outcome(s, Failure(StoreError))
    else
      var (t', result) := InsertEdges(s.networks[network.tableName], pairs);
      Outcome(s.(networks := s.networks[network.tableName := t']), result)
  }

  /** After a successful addEdges every pair is an edge of the network. */
  lemma {:induction false} AddEdgesThenGetEdge(s: Store, network: Network, pairs: seq<(int, int)>, k: int)
    requires AddEdges(s, network, pairs).result.Success?
    requires 0 <= k < |pairs|
    ensures GetEdge(AddEdges(s, network, pairs).after, network, pairs[k].0, pairs[k].1).Success?
  {
    var t := s.networks[network.tableName];
    var t' := InsertEdges(t, pairs).0;
    var row := t'.edges[|t.edges| + k];
    assert row.edge.from == pairs[k].0 && row.edge.to == pairs[k].1;
    assert FindByPair(t'.edges, pairs[k].0, pairs[k].1).Some?;
  }

  lemma {:induction false} InsertEdgesPreservesValidTables(name: string, t: NetworkTables, pairs: seq<(int, int)>)
    requires ValidTables(name, t)
    ensures ValidTables(name, InsertEdges(t, pairs).0)
    decreases |pairs|
  {
    if |pairs| > 0 {
      InsertEdgePreservesValidTables(name, t, pairs[0].0, pairs[0].1, map[]);
      var (t1, r1) := InsertEdge(t, pairs[0].0, pairs[0].1, map[]);
      if r1.Success? {
        InsertEdgesPreservesValidTables(name, t1, pairs[1..]);
      }
    }
  }

  lemma AddEdgesPreservesValid(s: Store, network: Network, pairs: seq<(int, int)>)
    requires Valid(s)
    ensures Valid(AddEdges(s, network, pairs).after)
  {
    if network.tableName in s.networks {
      InsertEdgesPreservesValidTables(network.tableName, s.networks[network.tableName], pairs);
      ReplaceTablesPreservesValid(s, network.tableName, InsertEdges(s.networks[network.tableName], pairs).0);
    }
  }

  // ---------------------------------------------------------------- count lemmas

  /** With unique ids, getEdgeCount is the number of distinct edges. */
  lemma EdgeCountCountsEdges(s: Store, network: Network)
    requires Valid(s) && network.tableName in s.networks
    ensures GetEdgeCount(s, network).value == |set j | 0 <= j < |s.networks[network.tableName].edges| :: s.networks[network.tableName].edges[j].edge|
  {
    var edges := s.networks[network.tableName].edges;
    DistinctEdgesCount(edges);
  }

  lemma {:induction false} DistinctEdgesCount(edges: seq<EdgeRow>)
    requires UniqueIds(edges)
    ensures |set j | 0 <= j < |edges| :: edges[j].edge| == |edges|
  {
    if |edges| > 0 {
      var init := edges[..|edges| - 1];
      var last := edges[|edges| - 1].edge;
      DistinctEdgesCount(init);
      var a := set j | 0 <= j < |init| :: init[j].edge;
      var b := set j | 0 <= j < |edges| :: edges[j].edge;
      assert b == a + {last} by {
        forall x | x in b ensures x in a + {last} {
          var j :| 0 <= j < |edges| && edges[j].edge == x;
          if j < |init| { assert init[j] == edges[j]; }
        }
        forall x | x in a ensures x in b {
          var j :| 0 <= j < |init| && init[j].edge == x;
          assert edges[j] == init[j];
        }
      }
      assert last !in a by {
        forall j | 0 <= j < |init| ensures init[j].edge != last {
          assert init[j] == edges[j];
        }
      }
    }
  }

  /** Every counted node is an endpoint of some edge, so there are at most twice as many
      nodes as edges. */
  lemma {:induction false} NodeCountAtMostTwiceEdgeCount(edges: seq<EdgeRow>)
    ensures |Endpoints(edges)| <= 2 * |edges|
  {
    if |edges| > 0 {
      var init := edges[..|edges| - 1];
      NodeCountAtMostTwiceEdgeCount(init);
      assert edges == init + [edges[|edges| - 1]];
      EndpointsOfAppended(init, edges[|edges| - 1]);
    }
  }

  /** getNodeCount counts the nodes that some edge of the network starts or ends at: any set
      holding exactly those nodes has the size the count reports. */
  lemma NodeCountCountsNodes(s: Store, network: Network, nodes: set<int>)
    requires network.tableName in s.networks
    requires forall v :: v in nodes <==> exists e :: HasEdge(s.networks[network.tableName].edges, e) && (e.from == v || e.to == v)
    ensures GetNodeCount(s, network) == Success(|nodes|)
  {
    var edges := s.networks[network.tableName].edges;
    forall v ensures v in nodes <==> v in Endpoints(edges) {
      EndpointsAreEdgeEnds(edges, v);
    }
    assert nodes == Endpoints(edges);
  }
}
