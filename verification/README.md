# Network extension of a GeoPackage: graph store, path search and extension checks

This project models three parts of the SWAGD GeoPackage tools in Dafny and proves properties of the model.

**The network extension's graph store** (`GeoPackageNetworkExtension.java`). A network is an edge table
with `id`, `from_node` and `to_node` columns. Edge ids come from a counter, and the
`(from_node, to_node)` pair is unique. Each network also has a node-attribute table, keyed by `node_id`
and named after the network plus `_node_attributes`. The registry `network_attribute_description`
holds attribute declarations. Each declaration adds one column, to the edge table or to the node table.

- The whole database is an immutable `Store` value.
- Every public method is a function from a store to a result. A method that writes returns an
  `Outcome`, which pairs the store after the call with the result.
- Failures are `Result` values tagged with an `Error`.
- `Store.Valid` is the invariant every writing operation is proved to keep:
  - both tables of every network exist;
  - edge ids and endpoint pairs are unique;
  - every attribute column has exactly one description, and every description has its column;
  - no two table names differ only in ASCII case.

**The two path searches of the command-line tool** (`Main.java`).

- `dijkstra` polls the cheapest queued vertex and lowers a neighbour's cost only on a strict
  decrease. It empties the queue and then walks the `previous` links back from the end node.
- `astar` keeps an open list ordered by distance-from-start plus estimate, and a closed set. It
  returns as soon as the end node is polled, and throws when the open list empties.
- Both methods are modelled as loops over a functional state. Their invariants are stated as
  predicates, each preserved by its own lemma.
- Edge costs and heuristic values are natural numbers. A missing map entry stands for the
  `Double.MAX_VALUE` "infinitely far" sentinel.

**The row-level rules of the GeoPackage extensions verifier** (`ExtensionsVerifier.java`). These rules
come from Requirements 80, 82 and 84 of the OGC GeoPackage Encoding Standard (clause 2.5.2, the
`gpkg_extensions` table):

- the null-safe `equals`;
- the `table_name`/`column_name` row rule;
- the shape of an extension name, as `verifyExtensionName` checks it;
- the allowed `scope` values.

Modules:

| Module | File | Contents |
|---|---|---|
| `Common` | common.dfy | `Option`, `Result`, the error taxonomy, ASCII lower-casing |
| `Schema` | schema.dfy | data types, attribute descriptions, node-table name, `getSchema`, `getColumnNames` |
| `Store` | store.dfy | the database state, its invariant, network and edge operations |
| `Registry` | registry.dfy | attribute descriptions |
| `Attributes` | attributes.dfy | node and edge attribute rows |
| `Graph` | graph.dfy | walks, walk costs, node sequences |
| `Dijkstra` | dijkstra.dfy | `dijkstra` |
| `AStar` | astar.dfy | `astar`, `getAstarPath`, vertex identity |
| `ExtensionsVerifier` | extensions_verifier.dfy | the extension checks |

Where the code and its own comments disagree, the model follows the code:

- **Dijkstra's shortest path.** The comment on `dijkstra` (NetworkExtension/src/Main.java:433-441) promises the shortest
  path from the start node to the end node. From a node to itself, with no cycle through it, the
  code returns the empty list instead of the one-node path (see Findings).
- **The gpkg author.** The Requirement 82 text quoted in the verifier
  (GeoPackage/src/com/rgi/geopackage/extensions/ExtensionsVerifier.java:305-325) allows names whose author is `gpkg` when the standard defines them.
  `verifyExtensionName` (GeoPackage/src/com/rgi/geopackage/extensions/ExtensionsVerifier.java:458-460) rejects every name whose author is `gpkg`.

## Model

| member | source | states |
|---|---|---|
| Schema.GetNodeAttributesTableName | NetworkExtension/src/main/java/com/rgi/geopackage/extensions/network/GeoPackageNetworkExtension.java:244-252 | An empty network name is rejected as an invalid argument. Any other name gives a table name that starts with the network name and ends with `_node_attributes`. |
| Schema.NodeTableNameInjective | NetworkExtension/src/main/java/com/rgi/geopackage/extensions/network/GeoPackageNetworkExtension.java:1301 | Different networks get different node-attribute tables, and no network's node table is the network table itself. |
| Schema.SchemaNames | NetworkExtension/src/main/java/com/rgi/geopackage/extensions/network/GeoPackageNetworkExtension.java:1218-1235 | The names are collected in input order exactly when every description names the same table and the requested attributed type. Otherwise the result is a schema mismatch. |
| Schema.GetSchema | NetworkExtension/src/main/java/com/rgi/geopackage/extensions/network/GeoPackageNetworkExtension.java:1205-1236 | An empty list is an invalid argument. A list that mixes tables or attributed types is a schema mismatch. Otherwise the result is the first entry's table and all the names, in order. |
| Schema.GetColumnNames | NetworkExtension/src/main/java/com/rgi/geopackage/extensions/network/GeoPackageNetworkExtension.java:1238-1268 | An empty list gives no names. A non-empty list succeeds exactly when `getSchema` does, and then gives the same names. |
| Store.Exits | NetworkExtension/src/main/java/com/rgi/geopackage/extensions/network/GeoPackageNetworkExtension.java:496-515 | The list holds exactly the table's edges whose from-node is the given node. |
| Store.Entries | NetworkExtension/src/main/java/com/rgi/geopackage/extensions/network/GeoPackageNetworkExtension.java:464-483 | The list holds exactly the table's edges whose to-node is the given node. |
| Store.EndpointsAreEdgeEnds | NetworkExtension/src/main/java/com/rgi/geopackage/extensions/network/GeoPackageNetworkExtension.java:207 | A node is counted exactly when some edge starts or ends at it. |
| Store.GetNetwork | NetworkExtension/src/main/java/com/rgi/geopackage/extensions/network/GeoPackageNetworkExtension.java:266-287 | A network is found exactly when it was added. |
| Store.AddNetwork | NetworkExtension/src/main/java/com/rgi/geopackage/extensions/network/GeoPackageNetworkExtension.java:316-375 | The call succeeds exactly when the name follows the naming rule, every CREATE TABLE succeeds, the content entry is added, and the extension is or becomes registered. A CREATE TABLE fails when its name equals an existing table's name up to ASCII case. This includes a network named after the registry table while that table does not exist yet. An exact clash is reported as an existing table; a clash up to case, or a missing content entry, is a store error. Both leave the store unchanged. A failing extension registration runs after the commit, so it fails the call but leaves the network's tables in place. A success creates both tables and the registry table and makes the network retrievable. |
| Store.AddNetworkPreservesValid | NetworkExtension/src/main/java/com/rgi/geopackage/extensions/network/GeoPackageNetworkExtension.java:341-374 | Adding a network, successful or not, keeps the store invariant. |
| Store.AddNetworkTwiceFails | NetworkExtension/src/main/java/com/rgi/geopackage/extensions/network/GeoPackageNetworkExtension.java:329-339 | Adding the same network name a second time fails as an existing table, changes nothing, and keeps the first network's details. |
| Store.NameTaken | NetworkExtension/src/main/java/com/rgi/geopackage/extensions/network/GeoPackageNetworkExtension.java:345-352 | A CREATE TABLE fails when an existing table has the same name up to ASCII case. |
| Store.Creatable | NetworkExtension/src/main/java/com/rgi/geopackage/extensions/network/GeoPackageNetworkExtension.java:341-352 | All three CREATE TABLE statements of addNetwork succeed: the registry table exists or its name is free, and neither the network table nor its node table clashes with a table, the registry table counted. |
| Store.AddNetworkComparesNamesIgnoringCase | NetworkExtension/src/main/java/com/rgi/geopackage/extensions/network/GeoPackageNetworkExtension.java:329-352 | With a network `roads` present, adding `Roads` passes both exact-name checks and then fails at its CREATE TABLE, changing nothing. |
| Store.GetEdgeCount | NetworkExtension/src/main/java/com/rgi/geopackage/extensions/network/GeoPackageNetworkExtension.java:169-189 | The count is the number of rows in the network's edge table. An unknown network fails. |
| Store.EdgeCountCountsEdges | NetworkExtension/src/main/java/com/rgi/geopackage/extensions/network/GeoPackageNetworkExtension.java:176-177 | In a valid store, the edge count equals the number of distinct edges. |
| Store.GetNodeCount | NetworkExtension/src/main/java/com/rgi/geopackage/extensions/network/GeoPackageNetworkExtension.java:200-222 | The count is at most twice the number of edges. An unknown network fails. |
| Store.NodeCountCountsNodes | NetworkExtension/src/main/java/com/rgi/geopackage/extensions/network/GeoPackageNetworkExtension.java:200-222 | The node count is the number of distinct nodes that some edge of the network starts or ends at. |
| Store.NodeCountAtMostTwiceEdgeCount | NetworkExtension/src/main/java/com/rgi/geopackage/extensions/network/GeoPackageNetworkExtension.java:207 | The union of from-nodes and to-nodes has at most twice as many members as there are edges. |
| Store.GetEdge | NetworkExtension/src/main/java/com/rgi/geopackage/extensions/network/GeoPackageNetworkExtension.java:391-418 | A returned id is that of an edge with the given endpoints. When there is no such edge, the result is a not-found error. |
| Store.GetEdgeById | NetworkExtension/src/main/java/com/rgi/geopackage/extensions/network/GeoPackageNetworkExtension.java:432-451 | An unknown id gives no edge (null) rather than an error. A returned edge is in the table and carries the requested id. |
| Store.GetExits | NetworkExtension/src/main/java/com/rgi/geopackage/extensions/network/GeoPackageNetworkExtension.java:496-515 | The result is exactly the network's edges that leave the node. |
| Store.GetEntries | NetworkExtension/src/main/java/com/rgi/geopackage/extensions/network/GeoPackageNetworkExtension.java:464-483 | The result is exactly the network's edges that enter the node. |
| Store.VisitEdges | NetworkExtension/src/main/java/com/rgi/geopackage/extensions/network/GeoPackageNetworkExtension.java:528-552 | The consumer sees every edge of the network, once per row. |
| Store.InsertEdge | NetworkExtension/src/main/java/com/rgi/geopackage/extensions/network/GeoPackageNetworkExtension.java:1270-1277 | A pair that is already present violates the UNIQUE constraint and leaves the table unchanged. Otherwise the row is appended under the next id. |
| Store.AddEdge | NetworkExtension/src/main/java/com/rgi/geopackage/extensions/network/GeoPackageNetworkExtension.java:609-632 | The call fails, changing nothing, exactly when the network already has an edge with these endpoints. A success replaces only this network's tables, by the single INSERT of the new edge: other networks, the description table, the table list and the extension flag stay as they were. |
| Store.AddEdgeThenGetEdge | NetworkExtension/src/main/java/com/rgi/geopackage/extensions/network/GeoPackageNetworkExtension.java:609-632 | After a successful add, both `getEdge` overloads find the new edge under the id the add returned. The edge count grows by one, and the node set grows by the two endpoints. |
| Store.AddEdgeTwiceFails | NetworkExtension/src/main/java/com/rgi/geopackage/extensions/network/GeoPackageNetworkExtension.java:1276 | Adding the same pair again is a constraint violation and changes nothing. |
| Store.AddEdgePreservesValid | NetworkExtension/src/main/java/com/rgi/geopackage/extensions/network/GeoPackageNetworkExtension.java:609-632 | Adding an edge keeps the store invariant. |
| Store.InsertEdges | NetworkExtension/src/main/java/com/rgi/geopackage/extensions/network/GeoPackageNetworkExtension.java:644-669 | Earlier rows are untouched. The new rows are the pairs in order, under consecutive ids. The call succeeds exactly when every pair was inserted. A failure stops at a pair that is already present, and the rows before it stay. |
| Store.AddEdges | NetworkExtension/src/main/java/com/rgi/geopackage/extensions/network/GeoPackageNetworkExtension.java:644-669 | The network's edge table is replaced by the result of the inserts, whether or not they all succeed. Nothing is rolled back. |
| Store.AddEdgesThenGetEdge | NetworkExtension/src/main/java/com/rgi/geopackage/extensions/network/GeoPackageNetworkExtension.java:644-669 | After a successful bulk add, every pair can be found with `getEdge`. |
| Store.AddEdgesPreservesValid | NetworkExtension/src/main/java/com/rgi/geopackage/extensions/network/GeoPackageNetworkExtension.java:644-669 | A bulk add keeps the store invariant, even when it stops part-way. |
| Store.DistinctEdgesCount | NetworkExtension/src/main/java/com/rgi/geopackage/extensions/network/GeoPackageNetworkExtension.java:1272 | With unique ids, the rows of the edge table are pairwise different edges. |
| Registry.FindDescription | NetworkExtension/src/main/java/com/rgi/geopackage/extensions/network/GeoPackageNetworkExtension.java:1289 | A description is found exactly when one with this table, name and attributed type is registered. |
| Registry.CheckArguments | NetworkExtension/src/main/java/com/rgi/geopackage/extensions/network/GeoPackageNetworkExtension.java:867-898 | An empty name, units or description is an invalid argument. An empty network name is an invalid argument only for a node attribute, whose table name comes from the node-table naming rule that refuses it; an edge attribute on an empty network name passes these checks. Edge attributes target the network table, and node attributes target its node-attribute table. |
| Registry.EmptyEdgeNetworkIsStoreError | NetworkExtension/src/main/java/com/rgi/geopackage/extensions/network/GeoPackageNetworkExtension.java:897-926 | An edge attribute declared on a network with an empty table name passes the argument checks and then fails in the database with a store error, because no such table exists; the store is unchanged. |
| Registry.AddAttributeDescription | NetworkExtension/src/main/java/com/rgi/geopackage/extensions/network/GeoPackageNetworkExtension.java:860-937 | Corrected: the call succeeds exactly when the arguments are non-empty, the network exists, no description with this table, name and type exists, and the column is free. A success registers the description under the next id and adds its column to the chosen table. A failure changes nothing. A success is exactly the INSERT of the description followed by the ALTER of the one table; nothing else in the store changes. |
| Registry.AddAttributeDescriptionPreservesValid | NetworkExtension/src/main/java/com/rgi/geopackage/extensions/network/GeoPackageNetworkExtension.java:909-926 | Declaring an attribute keeps the store invariant: every column has its description and the other way round. |
| Registry.AddAttributeDescriptionTwiceFails | NetworkExtension/src/main/java/com/rgi/geopackage/extensions/network/GeoPackageNetworkExtension.java:1289 | Declaring the same table, name and attributed type again violates the UNIQUE constraint at the insert, before any column is added. |
| Registry.AddAttributeDescriptionAsWritten | NetworkExtension/src/main/java/com/rgi/geopackage/extensions/network/GeoPackageNetworkExtension.java:909-926 | As written: a success is the corrected operation. A failure that still changes the store does so only when the column clashes, by leaving the registry row behind. |
| Registry.AsWrittenLeavesOrphanDescription | NetworkExtension/src/main/java/com/rgi/geopackage/extensions/network/GeoPackageNetworkExtension.java:909-926 | An edge attribute named `from_node` fails at the ALTER but stays registered, which breaks the store invariant. |
| Registry.GetAttributeDescriptions | NetworkExtension/src/main/java/com/rgi/geopackage/extensions/network/GeoPackageNetworkExtension.java:742-778 | The result is exactly the registered descriptions of the network and attributed type. |
| Registry.Filter | NetworkExtension/src/main/java/com/rgi/geopackage/extensions/network/GeoPackageNetworkExtension.java:755-770 | The result keeps exactly the descriptions of one table and attributed type. |
| Registry.GetAttributeDescription | NetworkExtension/src/main/java/com/rgi/geopackage/extensions/network/GeoPackageNetworkExtension.java:794-836 | A returned description is registered with the requested table, name and type. No description (null) means none is registered. |
| Registry.AddThenGetAttributeDescription | NetworkExtension/src/main/java/com/rgi/geopackage/extensions/network/GeoPackageNetworkExtension.java:860-937 | After a successful declaration, the lookup returns the new description, and its column exists. |
| Registry.AddColumn | NetworkExtension/src/main/java/com/rgi/geopackage/extensions/network/GeoPackageNetworkExtension.java:921-926 | The ALTER adds exactly one column to the chosen table's edge or node column set, according to the attributed type. The other column set, the rows, the other networks, the description table and the table list are unchanged. |
| Registry.DeclarePreservesValid | NetworkExtension/src/main/java/com/rgi/geopackage/extensions/network/GeoPackageNetworkExtension.java:909-926 | A registry row together with its column keeps the store invariant. |
| Attributes.Columns | NetworkExtension/src/main/java/com/rgi/geopackage/extensions/network/GeoPackageNetworkExtension.java:1238-1268 | The column names are the description names, position by position, compared without case as SQLite does. |
| Attributes.AssignKeeps | NetworkExtension/src/main/java/com/rgi/geopackage/extensions/network/GeoPackageNetworkExtension.java:1108-1114 | Writing some columns of a row leaves its other columns unchanged. |
| Attributes.AssignSets | NetworkExtension/src/main/java/com/rgi/geopackage/extensions/network/GeoPackageNetworkExtension.java:1108-1114 | After the write, each written column holds its value. When a column is named twice, the later value wins. |
| Attributes.ProjectAssign | NetworkExtension/src/main/java/com/rgi/geopackage/extensions/network/GeoPackageNetworkExtension.java:1025-1029 | Reading back the columns just written, in the same order, gives the values written. |
| Attributes.Assign | NetworkExtension/src/main/java/com/rgi/geopackage/extensions/network/GeoPackageNetworkExtension.java:1110-1113 | The row after `SET c1 = ?, c2 = ?, ...`: its columns are exactly the old ones plus the named ones; `Attributes.AssignSets` and `Attributes.AssignKeeps` state that each named column takes its value and the others keep theirs. |
| Attributes.Project | NetworkExtension/src/main/java/com/rgi/geopackage/extensions/network/GeoPackageNetworkExtension.java:1025-1029 | A row is read column by column in description order, and a column the row lacks reads as null. |
| Attributes.NodeTarget | NetworkExtension/src/main/java/com/rgi/geopackage/extensions/network/GeoPackageNetworkExtension.java:1100-1117 | A node write must pass `getSchema` for nodes and name an existing network. Every column it names must be an attribute column of the node table. The result is that network and its column names, in order. |
| Attributes.EdgeTarget | NetworkExtension/src/main/java/com/rgi/geopackage/extensions/network/GeoPackageNetworkExtension.java:689-705 | The same as `NodeTarget`, for an edge write and the edge table. |
| Attributes.NodeReadTarget | NetworkExtension/src/main/java/com/rgi/geopackage/extensions/network/GeoPackageNetworkExtension.java:1015-1028 | A node SELECT passes the same checks as a node write, except that it may also name the node table's fixed column `node_id`. On success it yields the network and the column names, in order. |
| Attributes.EdgeReadTarget | NetworkExtension/src/main/java/com/rgi/geopackage/extensions/network/GeoPackageNetworkExtension.java:953-966 | An edge SELECT passes the same checks as an edge write, except that it may also name the fixed columns `id`, `from_node` and `to_node`. On success it yields the network and the column names, in order. |
| Attributes.InsertNodes | NetworkExtension/src/main/java/com/rgi/geopackage/extensions/network/GeoPackageNetworkExtension.java:1151-1203 | Existing node rows stay unchanged. Every new row is one of the given nodes with its values. The call succeeds exactly when every value list has the right length and no node id repeats or already exists. On success every node holds its values. |
| Attributes.AddNodes | NetworkExtension/src/main/java/com/rgi/geopackage/extensions/network/GeoPackageNetworkExtension.java:1151-1203 | A bad description list fails and changes nothing. Otherwise the call succeeds exactly when the nodes can all be inserted. With a good description list the store after the call is the old one with only this network's tables replaced by the INSERTs of the pairs, including the rows written before a failing pair. |
| Attributes.AddNodesThenGetNodeAttributes | NetworkExtension/src/main/java/com/rgi/geopackage/extensions/network/GeoPackageNetworkExtension.java:1151-1203 | After a successful bulk insert, each node reads back exactly the values it was given, in description order. |
| Attributes.UpdateNodes | NetworkExtension/src/main/java/com/rgi/geopackage/extensions/network/GeoPackageNetworkExtension.java:1086-1139 | An update never adds or removes node rows. Nodes not mentioned keep their rows. The call succeeds exactly when every value list has the right length and every value agrees with its description's data type; a failure is an arity or a type mismatch. |
| Attributes.UpdatedCount | NetworkExtension/src/main/java/com/rgi/geopackage/extensions/network/GeoPackageNetworkExtension.java:1089-1135 | The number of nodes the loop updates before it stops: every node before that position has a value list of the right length and type, and the node at that position, if any, has not. |
| Attributes.UpdateNodesWrites | NetworkExtension/src/main/java/com/rgi/geopackage/extensions/network/GeoPackageNetworkExtension.java:1089-1138 | The run succeeds exactly when it reaches every node. Each reached node that has a row and is not mentioned again before the stop holds its values in the described columns, also when a later node fails: nothing rolls the earlier updates back. A node with a row that no reached node names keeps its row. |
| Attributes.UpdateNodesSetsReached | NetworkExtension/src/main/java/com/rgi/geopackage/extensions/network/GeoPackageNetworkExtension.java:1110-1135 | Each reached node with a row holds, in the described columns, the values of its last mention before the stop. |
| Attributes.UpdateNodesSetsFirst | NetworkExtension/src/main/java/com/rgi/geopackage/extensions/network/GeoPackageNetworkExtension.java:1110-1135 | The first node, when its values are accepted and the run does not reach it again, ends with its values in the described columns. |
| Attributes.UpdateNodesKeepsUnreached | NetworkExtension/src/main/java/com/rgi/geopackage/extensions/network/GeoPackageNetworkExtension.java:1110-1135 | A node with a row that no reached node names keeps its row unchanged. |
| Attributes.AddNodeAttributes | NetworkExtension/src/main/java/com/rgi/geopackage/extensions/network/GeoPackageNetworkExtension.java:1086-1139 | An empty node list succeeds without touching anything. Otherwise a bad description list fails and changes nothing, and the call succeeds exactly when every value list has the right length and type. No node row is added or removed. For a non-empty list with a good description list, the store after the call is the old one with only this network's tables replaced by the UPDATEs, including the updates made before a refused value list. |
| Attributes.AddNodeAttribute | NetworkExtension/src/main/java/com/rgi/geopackage/extensions/network/GeoPackageNetworkExtension.java:1069-1076 | The single-node form succeeds exactly when the descriptions resolve and the values have the right length and types. A failure changes nothing. A success changes only the node's row: it applies the SET to that row when the node has one, and otherwise changes nothing. |
| Attributes.AddNodeAttributeRejectsTypeMismatch | NetworkExtension/src/main/java/com/rgi/geopackage/extensions/network/GeoPackageNetworkExtension.java:1121-1131 | A value that does not agree with its description's data type is a type mismatch, and nothing is written. |
| Attributes.AddNodeAttributeThenGetNodeAttributes | NetworkExtension/src/main/java/com/rgi/geopackage/extensions/network/GeoPackageNetworkExtension.java:1069-1076 | After the update, an existing node reads back the new values. A node without a row is still not found, because the UPDATE touches no row. |
| Attributes.AddNodeAttributesThenGetNodeAttributes | NetworkExtension/src/main/java/com/rgi/geopackage/extensions/network/GeoPackageNetworkExtension.java:1086-1139 | After addNodeAttributes, whether it succeeded or stopped at a refused value list, every node the loop reached and did not reach again reads back the values of its mention when it has a row, and is still not found when it has none. A successful call reaches every node. |
| Attributes.NodeColumn | NetworkExtension/src/main/java/com/rgi/geopackage/extensions/network/GeoPackageNetworkExtension.java:1020-1023 | What `SELECT c FROM <network>_node_attributes WHERE node_id = ?` returns for one column of a node row: the stored value, the node's id for `node_id`, and NULL for an attribute column the row has no value in. |
| Attributes.SelectNode | NetworkExtension/src/main/java/com/rgi/geopackage/extensions/network/GeoPackageNetworkExtension.java:1020-1028 | The values of a node SELECT: one per selected column, in column order, each the column's value in that row. |
| Attributes.GetNodeAttributes | NetworkExtension/src/main/java/com/rgi/geopackage/extensions/network/GeoPackageNetworkExtension.java:1012-1036 | A node without a row is a not-found error. Otherwise each description reads its column of the node's row, in description order. A column the row lacks reads as null, and `node_id` reads the node's id. |
| Attributes.GetNodeAttributesReadsNodeId | NetworkExtension/src/main/java/com/rgi/geopackage/extensions/network/GeoPackageNetworkExtension.java:1020-1028 | In a valid store, a description named `node_id` reads the node's own id. |
| Attributes.InsertAttributedEdges | NetworkExtension/src/main/java/com/rgi/geopackage/extensions/network/GeoPackageNetworkExtension.java:681-728 | The call succeeds exactly when every edge was inserted. Node rows, columns and earlier edges stay as they were. |
| Attributes.InsertAttributedEdgesWrites | NetworkExtension/src/main/java/com/rgi/geopackage/extensions/network/GeoPackageNetworkExtension.java:696-724 | Each inserted row is the given pair under the next id, with its values in the description columns. A failure stops at a value list of the wrong length or at a pair that is already present. |
| Attributes.AddAttributedEdges | NetworkExtension/src/main/java/com/rgi/geopackage/extensions/network/GeoPackageNetworkExtension.java:681-728 | An empty edge collection is an invalid argument. A bad description list fails and changes nothing. Otherwise the store after the call is the old one with only this network's tables replaced by the INSERTs of the edges, including those written before a failing edge. The call succeeds exactly when every edge was inserted. |
| Attributes.AddAttributedEdgesWrites | NetworkExtension/src/main/java/com/rgi/geopackage/extensions/network/GeoPackageNetworkExtension.java:681-728 | A successful call resolves the descriptions to the edge table's columns, in order, and writes every edge there. |
| Attributes.AddAttributedEdgesThenGetEdge | NetworkExtension/src/main/java/com/rgi/geopackage/extensions/network/GeoPackageNetworkExtension.java:681-728 | After a successful call, the k-th pair is found with `getEdge` under the k-th new id. |
| Attributes.AddAttributedEdgesThenGetEdgeAttributes | NetworkExtension/src/main/java/com/rgi/geopackage/extensions/network/GeoPackageNetworkExtension.java:950-973 | After a successful call, the k-th new edge reads back exactly the k-th value list. |
| Attributes.EdgeColumn | NetworkExtension/src/main/java/com/rgi/geopackage/extensions/network/GeoPackageNetworkExtension.java:958-961 | What the edge SELECT returns for one column of an edge row: the stored value, the edge's id, start or end node for `id`, `from_node` and `to_node`, and NULL for an attribute column the row has no value in. |
| Attributes.SelectEdge | NetworkExtension/src/main/java/com/rgi/geopackage/extensions/network/GeoPackageNetworkExtension.java:958-966 | The values of an edge SELECT: one per selected column, in column order, each the column's value in that row. |
| Attributes.FirstWithId | NetworkExtension/src/main/java/com/rgi/geopackage/extensions/network/GeoPackageNetworkExtension.java:958-961 | The row `WHERE id = ? LIMIT 1` selects: the earliest edge with that id. |
| Attributes.EdgePosition | NetworkExtension/src/main/java/com/rgi/geopackage/extensions/network/GeoPackageNetworkExtension.java:958-970 | The search finds the earliest edge with the id whenever there is one, and reports none only when no edge has the id. |
| Attributes.GetEdgeAttributes | NetworkExtension/src/main/java/com/rgi/geopackage/extensions/network/GeoPackageNetworkExtension.java:950-973 | A failed statement check passes its error through. Otherwise the call fails, with a not-found error, exactly when no edge has the id. On success the values are those of the first edge with the id (`LIMIT 1`): each description reads its column of that row, in description order. A column the row lacks reads as null, and `id`, `from_node` and `to_node` read the edge's id and endpoints. |
| Attributes.GetEdgeAttributesReadsEndpoints | NetworkExtension/src/main/java/com/rgi/geopackage/extensions/network/GeoPackageNetworkExtension.java:958-966 | In a valid store, descriptions named `id`, `from_node` and `to_node` read the id and the endpoints of the edge with that id. |
| Attributes.EdgePositionUnique | NetworkExtension/src/main/java/com/rgi/geopackage/extensions/network/GeoPackageNetworkExtension.java:1272 | With unique ids, looking an edge up by its id finds its own row. |
| Attributes.AddAttributedEdgesPreservesValid | NetworkExtension/src/main/java/com/rgi/geopackage/extensions/network/GeoPackageNetworkExtension.java:681-728 | Inserting attributed edges keeps the store invariant, even when it stops part-way. |
| Attributes.AddNodesPreservesValid | NetworkExtension/src/main/java/com/rgi/geopackage/extensions/network/GeoPackageNetworkExtension.java:1151-1203 | Inserting node rows keeps the store invariant. |
| Attributes.AddNodeAttributesPreservesValid | NetworkExtension/src/main/java/com/rgi/geopackage/extensions/network/GeoPackageNetworkExtension.java:1086-1139 | Updating node rows keeps the store invariant. |
| Graph.WalkAppend | NetworkExtension/src/Main.java:471-479 | An exit of a walk's last node extends the walk, and the cost grows by that edge's weight. |
| Graph.WalkPrepend | NetworkExtension/src/Main.java:483-490 | An edge into a walk's first node, followed by the walk, is a walk. Its cost adds that edge's weight. |
| Graph.ReversedVisits | NetworkExtension/src/Main.java:483-490 | A list of the nodes a walk enters, last first, followed by its start node, is the walk's node sequence reversed. |
| Dijkstra.RelaxAllEffect | NetworkExtension/src/Main.java:460-480 | Relaxing the exits of a vertex never raises a cost. It lowers a neighbour's cost, and points the neighbour's previous link at the vertex, only on a strict decrease. It leaves every other vertex as it was. |
| Dijkstra.SeedPolledFirst | NetworkExtension/src/Main.java:450-458 | The start vertex, which is not in the node map, is polled first and never queued again. An edge back to the start node creates a second vertex for it. |
| Dijkstra.Step | NetworkExtension/src/Main.java:456-481 | Polling a cheapest vertex and relaxing its exits keeps the loop invariant. The invariant covers ordered costs, relaxed exits, and previous links along real edges to polled vertices. Each iteration polls one more vertex for good. |
| Dijkstra.CostsAreLeast | NetworkExtension/src/Main.java:456-481 | Once the queue is empty, every node a non-empty walk reaches has a cost no greater than that walk's. |
| Dijkstra.CostsAreMet | NetworkExtension/src/Main.java:456-481 | Every recorded cost is the cost of a real walk from the start, found by following the previous links. |
| Dijkstra.Search | NetworkExtension/src/Main.java:452-481 | The search ends with an empty queue. Exactly the nodes a non-empty walk reaches have a vertex, and each one's cost is no greater than that of any such walk. |
| Dijkstra.Backtrack | NetworkExtension/src/Main.java:483-490 | An undiscovered end node gives the empty list. Otherwise the list is a walk from the start to the end, costing the end's recorded cost, with its nodes given end first. |
| Dijkstra.Dijkstra | NetworkExtension/src/Main.java:442-491 | As written: the list is empty exactly when no non-empty walk leads from the start to the end. Otherwise it is a cheapest non-empty walk, end first. It never has exactly one node. |
| Dijkstra.ShortestPath | NetworkExtension/src/Main.java:433-441 | Corrected: the list is empty exactly when no walk at all leads to the end. Otherwise it is a cheapest walk, end first, and from a node to itself it is that node alone. |
| Dijkstra.DijkstraMissesTrivialPath | NetworkExtension/src/Main.java:452-454 | On an empty edge table, from node 1 to node 1 the code answers the empty list, while the corrected search answers `[1]`. |
| AStar.EqualsIsSameNode | NetworkExtension/src/Main.java:252-283 | Two vertices are equal exactly when their node ids are, equal vertices hash alike, and neither equality nor the hash reads the distances or the previous link. |
| AStar.ExpandAllEffect | NetworkExtension/src/Main.java:375-414 | Expanding a vertex skips closed targets. It opens new ones with the vertex as previous and the start distance plus the heuristic step. It updates an open target only on a strict decrease. It never reopens a closed node or changes the expanded vertex. |
| AStar.Step | NetworkExtension/src/Main.java:364-414 | Closing a polled non-end vertex and expanding it keeps the loop invariant. The invariant covers: open and closed disjoint, every vertex's previous link an edge from a closed node, every distance-from-start the heuristic cost of a real walk. The closed set grows. |
| AStar.GetAstarPath | NetworkExtension/src/Main.java:420-431 | An end node without a vertex gives the empty list. Otherwise the list starts at the end and follows the previous links until a vertex without one. |
| AStar.ChainIsWalk | NetworkExtension/src/Main.java:420-431 | A chain of previous links ending at the start vertex is, reversed, a walk from the start. The walk costs the first node's distance from the start. |
| AStar.Found | NetworkExtension/src/Main.java:366-370 | When the end node is polled, the path returned is a walk from the start to the end, end first, and from a node to itself it is that node alone. |
| AStar.Exhausted | NetworkExtension/src/Main.java:362-416 | When the open list empties, no walk leads from the start to the end. |
| AStar.AStar | NetworkExtension/src/Main.java:342-418 | The search fails with "path not found" exactly when no walk leads from the start to the end. Otherwise it returns such a walk's nodes, end first, and from a node to itself it returns that node alone. |
| ExtensionsVerifier.NullSafeEquals | GeoPackage/src/com/rgi/geopackage/extensions/ExtensionsVerifier.java:469-472 | The result is true exactly when both values are null or both hold the same text. |
| ExtensionsVerifier.Requirement80Row | GeoPackage/src/com/rgi/geopackage/extensions/ExtensionsVerifier.java:201-207 | A row is valid exactly when its table_name is present or its column_name is null. |
| ExtensionsVerifier.Requirement80Rows | GeoPackage/src/com/rgi/geopackage/extensions/ExtensionsVerifier.java:197-243 | No row is reported exactly when every row is valid. A reported row is one of the rows and breaks the rule. |
| ExtensionsVerifier.SplitAuthor | GeoPackage/src/com/rgi/geopackage/extensions/ExtensionsVerifier.java:452 | A name without an underscore stays whole. Otherwise it splits into the text before the first underscore and everything after it, with empty ends kept. |
| ExtensionsVerifier.VerifyExtensionName | GeoPackage/src/com/rgi/geopackage/extensions/ExtensionsVerifier.java:450-466 | Nothing (null) is reported for a valid name. An invalid name is reported as itself. |
| ExtensionsVerifier.VerifyExtensionNameIsRequirement82 | GeoPackage/src/com/rgi/geopackage/extensions/ExtensionsVerifier.java:450-466 | A name passes exactly when it is an author of letters and digits, not `gpkg`, then an underscore, then a non-empty remainder of letters, digits and underscores. |
| ExtensionsVerifier.NoUnderscoreIsInvalid | GeoPackage/src/com/rgi/geopackage/extensions/ExtensionsVerifier.java:452-457 | A name without an underscore is invalid. |
| ExtensionsVerifier.LeadingUnderscoreIsInvalid | GeoPackage/src/com/rgi/geopackage/extensions/ExtensionsVerifier.java:458-463 | A name that starts with an underscore has an empty author and is invalid. |
| ExtensionsVerifier.TrailingUnderscoreIsInvalid | GeoPackage/src/com/rgi/geopackage/extensions/ExtensionsVerifier.java:452 | An author followed only by one underscore leaves an empty remainder and is invalid. |
| ExtensionsVerifier.GpkgAuthorIsInvalid | GeoPackage/src/com/rgi/geopackage/extensions/ExtensionsVerifier.java:458-460 | Every name with the author `gpkg` is invalid. |
| ExtensionsVerifier.FurtherUnderscoresAllowed | GeoPackage/src/com/rgi/geopackage/extensions/ExtensionsVerifier.java:461-463 | Underscores after the first belong to the remainder and keep a valid name valid. |
| ExtensionsVerifier.NetworkExtensionNameIsValid | NetworkExtension/src/main/java/com/rgi/geopackage/extensions/network/GeoPackageNetworkExtension.java:1300 | The network extension's own name `SWAGD_network` passes the extension-name check. |
| ExtensionsVerifier.InvalidExtensionNames | GeoPackage/src/com/rgi/geopackage/extensions/ExtensionsVerifier.java:326-344 | The set reported is exactly the rows' extension names that break Requirement 82. |
| ExtensionsVerifier.ValidScope | GeoPackage/src/com/rgi/geopackage/extensions/ExtensionsVerifier.java:420 | Both `read-write` and `write-only` are accepted, and only ten-character values can be. |
| ExtensionsVerifier.UpperCaseScopeIsInvalid | GeoPackage/src/com/rgi/geopackage/extensions/ExtensionsVerifier.java:420 | The comparison is case-sensitive: `READ-WRITE` and `Write-Only` are refused. |
| ExtensionsVerifier.InvalidScopes | GeoPackage/src/com/rgi/geopackage/extensions/ExtensionsVerifier.java:416-447 | The scopes reported are exactly those of the rows whose scope is neither allowed value. The requirement holds exactly when none is reported. |

## Left out

- JDBC and SQL are not modelled. This covers statement text, `sqlite_master` lookups, prepared statements and `commit`. The model does produce these SQL failures: the UNIQUE constraints of the edge and description tables; a duplicate column in `ALTER TABLE ... ADD COLUMN` (`Registry.ColumnClash`); a statement naming a missing table or column (the store errors of `Attributes.NodeTarget`, `Attributes.EdgeTarget`, `Attributes.NodeReadTarget` and `Attributes.EdgeReadTarget`); and a CREATE TABLE whose name is taken up to case (`Store.NameTaken`). Other SQL errors are not modelled. The tables are abstract sequences, maps and column sets, and a value is stored and read back unchanged: SQLite's type affinity and the conversions of `setObject` and `getObject` are not modelled.
- Transactions: the connection does not auto-commit. Each writer commits at its end (NetworkExtension/src/main/java/com/rgi/geopackage/extensions/network/GeoPackageNetworkExtension.java:362, 629, 668, 727, 928, 1138 and 1202), and only `addNetwork` rolls back on failure. The other writers neither commit nor roll back when they fail. The rows they wrote before the failure stay in the open transaction and become permanent with the next successful commit. The model returns the store as that commit would leave it, rows included.
- `JdbcUtility.update` over a collection of rows is not shown. The model assumes it runs one statement per row, in order, and stops at the first failing row. This is why `Store.InsertEdges`, `Attributes.InsertNodes` and `Attributes.InsertAttributedEdges` keep the rows before a failure.
- `DatabaseUtility.tableOrViewExists` is not shown. `Store.AddNetwork` assumes it compares names exactly. A name that differs from an existing table only in case therefore passes it and fails at its CREATE TABLE.
- The content and extension registries of the GeoPackage core (`addContent`, `getContent`, `addExtensionEntry`) are not shown. Their outcomes are the boolean parameters `contentAdded` and `extensionAdded` of `Store.AddNetwork`.
- The bounding box, the last-change timestamp and the spatial reference system object are left out. A network keeps its table name, identifier, description and SRS id.
- `getNetworks`, `visitNodes`, `getNodeExitGetter` (and `NodeExitGetter`) and `getAttributedNode` are left out. They are further query and consumer wrappers over the same tables: `visitNodes` streams node attribute rows, and the exit getter pairs `getExits` with `getNodeAttributes`.
- The table-name rule that `addNetwork` applies comes from code not shown. `Store.ValidTableName` models it as "starts with a letter or underscore, then letters, digits and underscores, without the `gpkg_` prefix".
- `AttributeDescription.dataTypeAgrees` is not shown. `Schema.DataTypeAgrees` assumes that a null agrees with every data type and that any other value agrees with the type of its own tag.
- Null arguments are not modelled, so neither are their `IllegalArgumentException`s. A Dafny value is never null; the empty-string and empty-collection checks are modelled.
- Node ids and edge ids are unbounded integers; the 32-bit range of Java's `int` is not modelled.
- Edge costs and heuristic values are natural numbers rather than `Double`. `Double.MAX_VALUE` becomes "no entry yet". Negative, infinite and NaN costs, and floating-point rounding in the sums, are not modelled.
- `getDistance`, `calculateDistanceCost`, `runRoute`, `createGpkg`, `loadNodeAttributes`, `loadEdges` and `main` in `Main.java` are file loading and command-line glue, and are left out.
- `Vertex` overrides `equals` but not `hashCode`. No hashed collection holds a `Vertex`, so this has no effect, and it is not modelled.
- The priority queues are modelled as sets, polled at a cheapest element. Which of several equally cheap vertices `PriorityQueue.poll` returns is left open: the model may choose any of them.
- ExtensionsVerifier.ValidScope: its contract names the two accepted values and bounds the length of any accepted one. That nothing else is accepted is only its definition, and `InvalidScopes` states the requirement in full.
- AStar.AStar: promises a walk, not a cheapest walk. The code uses the heuristic as the step cost, so no optimality property follows for the edge costs.
- Attributes.AddNodesThenGetNodeAttributes: the exact read-back holds only when storing a value involves no conversion. Values are bound with `setObject` into columns with SQLite type affinity and read with `getObject`; a boolean reads back as an integer, and the text `5` stored in an INTEGER column reads back as the number 5. Value conversion is not modelled: a value is stored and read as it is.
- Attributes.AddNodeAttributeThenGetNodeAttributes: the exact read-back holds only when no affinity conversion occurs, for the same reason.
- Attributes.AddNodeAttributesThenGetNodeAttributes: the exact read-back holds only when no affinity conversion occurs, for the same reason.
- Attributes.AddAttributedEdgesThenGetEdgeAttributes: the exact read-back holds only when no affinity conversion occurs, for the same reason.
- Registry.AddAttributeDescription: SQLite's parsing of the column name is not modelled. The name goes unquoted into `ALTER TABLE ... ADD COLUMN` (NetworkExtension/src/main/java/com/rgi/geopackage/extensions/network/GeoPackageNetworkExtension.java:921-926). A keyword, or a name with a space or punctuation, makes SQLite reject the ALTER or add a column under another name. The model takes the ALTER to succeed whenever the lower-cased name is not yet a column, so for such names its success condition is wider than the code's.
- Registry.AddAttributeDescriptionAsWritten: for the same reason, it names only the column clash as the failure that leaves the registry row behind. An ALTER that SQLite rejects for a malformed name leaves the row behind too. The model also takes the foreign key `fk_natd_table_name` (NetworkExtension/src/main/java/com/rgi/geopackage/extensions/network/GeoPackageNetworkExtension.java:1290), which makes the description's table name reference `gpkg_contents`, to be enforced, and takes `gpkg_contents` to list only networks the store knows: an edge attribute on an unknown network then fails at the INSERT and changes nothing. SQLite does not enforce foreign keys unless the connection turns them on; without that the INSERT succeeds, the ALTER fails on the missing table, and the registry row is left behind for a network that does not exist, which its contract does not describe.
- Attributes.NodeTarget: a node write whose descriptions name the fixed column `node_id` is refused. In SQLite, `addNodes` would then name `node_id` twice in its INSERT, and `addNodeAttributes` would renumber the node. Neither effect is modelled. Reads accept the fixed column (`Attributes.NodeReadTarget`).
- Attributes.EdgeTarget: an edge write whose descriptions name `id`, `from_node` or `to_node` is refused. In SQLite, `addAttributedEdges` would name that column twice or set the id explicitly; this is not modelled. Reads accept the fixed columns (`Attributes.EdgeReadTarget`).
- The edge-cost and heuristic callbacks are total functions here. Their own failures, such as an `SQLException` from a lookup inside them, are not modelled.
- The SQL-driven checks of `ExtensionsVerifier` (the table definition, Requirements 78, 81 and 83, and the `gpkg_contents` join of Requirement 80) are left out. Only their row-level predicates are modelled. The `toMap` that builds the verifier's row map would throw `NullPointerException` on a NULL `column_name`; that map is not modelled, and rows carry both columns as options. A row's `extension_name` and `scope` are plain strings, so a NULL in either cannot be represented. The table definition that the left-out table check compares against declares both columns NOT NULL (GeoPackage/src/com/rgi/geopackage/extensions/ExtensionsVerifier.java:482 and 484). Where that check fails, a NULL scope is never reported, because `scope != ...` is NULL in SQL and the code also filters out null values (lines 420-438). A NULL extension name would reach `split` at line 452 and throw `NullPointerException`.

## Findings

| source | as written | input that shows it | evidently intended | confidence | as-written member | corrected member |
|---|---|---|---|---|---|---|
| NetworkExtension/src/Main.java:452-454 | The start vertex is never put in the node map, so backtracking from `end == start` finds no vertex, or finds the vertex of a cycle back to the start. | An empty edge table with start = end = 1 gives `[]`, although the empty walk leads from 1 to 1. | The documented "shortest path from the starting node to the ending node", which is `[start]` when the two nodes are the same. | high; not executed | Dijkstra.Dijkstra | Dijkstra.ShortestPath |
| NetworkExtension/src/main/java/com/rgi/geopackage/extensions/network/GeoPackageNetworkExtension.java:909-926 | The INSERT into `network_attribute_description` runs before the ALTER TABLE, and nothing rolls it back when the ALTER fails. | An edge attribute named `from_node` on network `roads`: the column already exists, so the ALTER fails, but the description stays registered. | A failed declaration leaves neither the registry row nor the column. | high; not executed | Registry.AddAttributeDescriptionAsWritten | Registry.AddAttributeDescription |

The first finding is exhibited by `Dijkstra.DijkstraMissesTrivialPath`, and the second by `Registry.AsWrittenLeavesOrphanDescription`.
