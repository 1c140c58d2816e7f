/** The attribute-description registry of the network extension: declaring an attribute
    inserts a row into network_attribute_description and then adds a column to the edge table
    or the node-attribute table of its network. */
module Registry {
  import opened Common
  import opened Schema
  import opened Store

  /** Whether "ALTER TABLE ... ADD COLUMN name" fails because the table already has a column of
      that name; SQLite compares column names ignoring ASCII case. */
  predicate ColumnClash(t: NetworkTables, name: string, attributedType: AttributedType) {
    Lower(name) in FixedColumns(attributedType) + ColumnsOf(t, attributedType)
  }

  /** The first description with this exact (table_name, name, attributed_type). */
  function FindDescription(descriptions: seq<AttributeDescription>, table: string, name: string,
                           attributedType: AttributedType): (r: Option<AttributeDescription>)
    ensures r.Some? ==> r.value in descriptions && r.value.networkTableName == table
                        && r.value.name == name && r.value.attributedType == attributedType
    ensures r.None? <==> forall i :: 0 <= i < |descriptions| ==>
              descriptions[i].networkTableName != table || descriptions[i].name != name
              || descriptions[i].attributedType != attributedType
  {
    if |descriptions| == 0 then None
    else
      var d := descriptions[0];
      if d.networkTableName == table && d.name == name && d.attributedType == attributedType then Some(d)
      else
        assert forall i :: 1 <= i < |descriptions| ==> descriptions[i] == descriptions[1..][i - 1];
        FindDescription(descriptions[1..], table, name, attributedType)
  }

  /** The argument checks of addAttributeDescription, ending with the choice of the table the
      column goes to. Only a node attribute goes through getNodeAttributesTableName, which
      rejects an empty network name; an edge attribute on an empty name reaches the database. */
  function CheckArguments(network: Network, name: string, units: string, description: string,
                          attributedType: AttributedType): (r: Result<string>)
    ensures r.Success? <==> && name != "" && units != "" && description != ""
                            && (attributedType == EdgeAttribute || network.tableName != "")
    ensures r.Failure? ==> r.error == InvalidArgument
    ensures r.Success? ==> r.value == (if attributedType == EdgeAttribute then network.tableName
                                       else NodeTableName(network.tableName))
  {
    if name == "" || units == "" || description == "" then Failure(InvalidArgument)
    else if attributedType == EdgeAttribute then Success(network.tableName)
    else GetNodeAttributesTableName(network.tableName)
  }

  /** An edge attribute on a network with an empty table name passes the argument checks and
      fails in the database, where no such table exists, leaving the store unchanged. */
  lemma {:induction false} EmptyEdgeNetworkIsStoreError(s: Store, network: Network, name: string, units: string, dataType: DataType,
                                                        description: string)
    requires Valid(s) && network.tableName == ""
    requires name != "" && units != "" && description != ""
    ensures AddAttributeDescription(s, network, name, units, dataType, description, EdgeAttribute) == Outcome(s, Failure(StoreError))
  {
    assert network.tableName !in s.networks;
  }

  function AddColumn(s: Store, table: string, attributedType: AttributedType, column: string): (r: Store)
    requires table in s.networks
    ensures r.networks.Keys == s.networks.Keys
    ensures ColumnsOf(r.networks[table], attributedType) == ColumnsOf(s.networks[table], attributedType) + {column}
    ensures r.tables == s.tables && r.descriptions == s.descriptions && r.nextDescriptionId == s.nextDescriptionId
            && r.extensionRegistered == s.extensionRegistered
    ensures forall m :: m in s.networks && m != table ==> r.networks[m] == s.networks[m]
    ensures var t, t' := s.networks[table], r.networks[table];
            && t'.info == t.info && t'.edges == t.edges && t'.nextEdgeId == t.nextEdgeId && t'.nodes == t.nodes
            && (if attributedType == EdgeAttribute then t'.nodeColumns == t.nodeColumns else t'.edgeColumns == t.edgeColumns)
  {
    var t := s.networks[table];
    var t' := if attributedType == EdgeAttribute then t.(edgeColumns := t.edgeColumns + {column})
              else t.(nodeColumns := t.nodeColumns + {column});
    s.(networks := s.networks[table := t'])
  }

  function NewDescription(s: Store, network: Network, name: string, units: string, dataType: DataType,
                          description: string, attributedType: AttributedType): AttributeDescription {
    AttributeDescription(s.nextDescriptionId, network.tableName, name, units, dataType, description, attributedType)
  }

  function InsertDescription(s: Store, d: AttributeDescription): Store {
    s.(descriptions := s.descriptions + [d], nextDescriptionId := s.nextDescriptionId + 1)
  }

  /** addAttributeDescription as the code is written: the INSERT runs first, the ALTER second,
      and nothing rolls the INSERT back when the ALTER fails. */
  function AddAttributeDescriptionAsWritten(s: Store, network: Network, name: string, units: string, dataType: DataType,
                                            description: string, attributedType: AttributedType): (r: Outcome<AttributeDescription>)
    ensures r.result.Success? ==> r == AddAttributeDescription(s, network, name, units, dataType, description, attributedType)
    ensures r.result.Failure? && r.after != s ==>
              && network.tableName in s.networks
              && ColumnClash(s.networks[network.tableName], name, attributedType)
              && r.after == InsertDescription(s, NewDescription(s, network, name, units, dataType, description, attributedType))
  {
    if CheckArguments(network, name, units, description, attributedType).Failure? then
      Outcome(s, Failure(CheckArguments(network, name, units, description, attributedType).error))
    else if network.tableName !in s.networks then Outcome(s, Failure(StoreError))
    else if FindDescription(s.descriptions, network.tableName, name, attributedType).Some? then
      Outcome(s, Failure(ConstraintViolation))
    else
      var d := NewDescription(s, network, name, units, dataType, description, attributedType);
      var inserted := InsertDescription(s, d);
      if ColumnClash(s.networks[network.tableName], name, attributedType) then Outcome(inserted, Failure(StoreError))
      else Outcome(AddColumn(inserted, network.tableName, attributedType, Lower(name)), Success(d))
  }

  /** addAttributeDescription with the two writes made atomic: a failing ALTER leaves no
      description behind. This is the definition the rest of the model uses. */
  function AddAttributeDescription(s: Store, network: Network, name: string, units: string, dataType: DataType,
                                   description: string, attributedType: AttributedType): (r: Outcome<AttributeDescription>)
    ensures r.result.Failure? ==> r.after == s
    ensures r.result.Success? <==>
              && CheckArguments(network, name, units, description, attributedType).Success?
              && network.tableName in s.networks
              && FindDescription(s.descriptions, network.tableName, name, attributedType).None?
              && !ColumnClash(s.networks[network.tableName], name, attributedType)
    ensures r.result.Success? ==>
              && r.result.value == NewDescription(s, network, name, units, dataType, description, attributedType)
              && r.after.descriptions == s.descriptions + [r.result.value]
              && network.tableName in r.after.networks
              && ColumnsOf(r.after.networks[network.tableName], attributedType)
                 == ColumnsOf(s.networks[network.tableName], attributedType) + {Lower(name)}
    ensures r.result.Success? ==>
              r.after == AddColumn(InsertDescription(s, r.result.value), network.tableName, attributedType, Lower(name))
  {
    if CheckArguments(network, name, units, description, attributedType).Failure? then
      Outcome(s, Failure(CheckArguments(network, name, units, description, attributedType).error))
    else if network.tableName !in s.networks then Outcome(s, Failure(StoreError))
    else if FindDescription(s.descriptions, network.tableName, name, attributedType).Some? then
      Outcome(s, Failure(ConstraintViolation))
    else if ColumnClash(s.networks[network.tableName], name, attributedType) then Outcome(s, Failure(StoreError))
    else
      var d := NewDescription(s, network, name, units, dataType, description, attributedType);
      Outcome(AddColumn(InsertDescription(s, d), network.tableName, attributedType, Lower(name)), Success(d))
  }

  lemma AddAttributeDescriptionPreservesValid(s: Store, network: Network, name: string, units: string, dataType: DataType,
                                              description: string, attributedType: AttributedType)
    requires Valid(s)
    ensures Valid(AddAttributeDescription(s, network, name, units, dataType, description, attributedType).after)
  {
    var r := AddAttributeDescription(s, network, name, units, dataType, description, attributedType);
    if r.result.Success? {
      DeclarePreservesValid(s, r.result.value);
    }
  }

  /** The store after registering d and adding its column. */
  function Declare(s: Store, d: AttributeDescription): Store
    requires d.networkTableName in s.networks
  {
    AddColumn(InsertDescription(s, d), d.networkTableName, d.attributedType, Lower(d.name))
  }

  lemma DeclarePreservesValid(s: Store, d: AttributeDescription)
    requires Valid(s) && d.networkTableName in s.networks
    requires d.identifier == s.nextDescriptionId
    requires !ColumnClash(s.networks[d.networkTableName], d.name, d.attributedType)
    ensures Valid(Declare(s, d))
  {
    var s' := Declare(s, d);
    var n := d.networkTableName;
    assert forall m :: m in s.networks ==> ValidTables(m, s'.networks[m]) by {
      forall m | m in s.networks ensures ValidTables(m, s'.networks[m]) {
        assert ValidTables(m, s.networks[m]);
        if m == n { DeclareKeepsTables(s, d); }
      }
    }
    DeclareHasColumns(s, d);
    DeclareColumnsHaveDescriptions(s, d);
    DeclareDistinct(s, d);
  }

  lemma DeclareKeepsTables(s: Store, d: AttributeDescription)
    requires Valid(s) && d.networkTableName in s.networks
    requires !ColumnClash(s.networks[d.networkTableName], d.name, d.attributedType)
    ensures ValidTables(d.networkTableName, Declare(s, d).networks[d.networkTableName])
  {
    var n := d.networkTableName;
    assert ValidTables(n, s.networks[n]);
  }

  lemma DeclareHasColumns(s: Store, d: AttributeDescription)
    requires Valid(s) && d.networkTableName in s.networks
    requires d.identifier == s.nextDescriptionId
    ensures DescriptionsHaveColumns(Declare(s, d))
  {
    var s' := Declare(s, d);
    forall i | 0 <= i < |s'.descriptions|
      ensures s'.descriptions[i].networkTableName in s'.networks
      ensures Lower(s'.descriptions[i].name) in ColumnsOf(s'.networks[s'.descriptions[i].networkTableName], s'.descriptions[i].attributedType)
      ensures s'.descriptions[i].identifier < s'.nextDescriptionId
    {
      if i < |s.descriptions| {
        assert s'.descriptions[i] == s.descriptions[i];
      }
    }
  }

  lemma DeclareColumnsHaveDescriptions(s: Store, d: AttributeDescription)
    requires Valid(s) && d.networkTableName in s.networks
    ensures ColumnsHaveDescriptions(Declare(s, d))
  {
    var s' := Declare(s, d);
    forall m, at: AttributedType, c | m in s'.networks && c in ColumnsOf(s'.networks[m], at)
      ensures exists i :: 0 <= i < |s'.descriptions| && Describes(s'.descriptions[i], m, at, c)
    {
      if m == d.networkTableName && at == d.attributedType && c == Lower(d.name) {
        assert Describes(s'.descriptions[|s.descriptions|], m, at, c);
      } else {
        assert c in ColumnsOf(s.networks[m], at);
        var i :| 0 <= i < |s.descriptions| && Describes(s.descriptions[i], m, at, c);
        assert s'.descriptions[i] == s.descriptions[i];
      }
    }
  }

  lemma DeclareDistinct(s: Store, d: AttributeDescription)
    requires Valid(s) && d.networkTableName in s.networks
    requires !ColumnClash(s.networks[d.networkTableName], d.name, d.attributedType)
    ensures DistinctColumns(Declare(s, d).descriptions)
  {
    var ds := Declare(s, d).descriptions;
    assert ds == s.descriptions + [d];
    forall i, j | 0 <= i < j < |ds|
      ensures ds[i].networkTableName != ds[j].networkTableName
              || ds[i].attributedType != ds[j].attributedType
              || Lower(ds[i].name) != Lower(ds[j].name)
    {
      assert ds[i] == s.descriptions[i];
      if j < |s.descriptions| {
        assert ds[j] == s.descriptions[j];
      }
    }
  }

  /** getAttributeDescriptions: the descriptions of one network and attributed type. */
  function GetAttributeDescriptions(s: Store, network: Network, attributedType: AttributedType): (r: Result<seq<AttributeDescription>>)
    ensures r.Failure? <==> AttributeDescriptionTableName !in s.tables
    ensures r.Success? ==> forall d :: d in r.value <==>
              d in s.descriptions && d.networkTableName == network.tableName && d.attributedType == attributedType
  {
    if AttributeDescriptionTableName !in s.tables then Failure(StoreError)
    else Success(Filter(s.descriptions, network.tableName, attributedType))
  }

  function Filter(descriptions: seq<AttributeDescription>, table: string, attributedType: AttributedType): (r: seq<AttributeDescription>)
    ensures forall d :: d in r <==> d in descriptions && d.networkTableName == table && d.attributedType == attributedType
  {
    if |descriptions| == 0 then []
    else
      var rest := Filter(descriptions[1..], table, attributedType);
      assert forall d :: d in descriptions <==> d == descriptions[0] || d in descriptions[1..];
      var d := descriptions[0];
      if d.networkTableName == table && d.attributedType == attributedType then [d] + rest else rest
  }

  /** getAttributeDescription: the description with this name, or null. */
  function GetAttributeDescription(s: Store, network: Network, name: string, attributedType: AttributedType): (r: Result<Option<AttributeDescription>>)
    ensures r.Failure? <==> AttributeDescriptionTableName !in s.tables
    ensures r.Success? && r.value.Some? ==>
              r.value.value in s.descriptions && r.value.value.networkTableName == network.tableName
              && r.value.value.name == name && r.value.value.attributedType == attributedType
    ensures r.Success? && r.value.None? ==>
              forall d :: d in s.descriptions ==>
                d.networkTableName != network.tableName || d.name != name || d.attributedType != attributedType
  {
    if AttributeDescriptionTableName !in s.tables then Failure(StoreError)
    else Success(FindDescription(s.descriptions, network.tableName, name, attributedType))
  }

  /** After a successful declaration the registry answers the new description and the
      attributed table carries its column. */
  lemma AddThenGetAttributeDescription(s: Store, network: Network, name: string, units: string, dataType: DataType,
                                       description: string, attributedType: AttributedType)
    requires Valid(s)
    requires AddAttributeDescription(s, network, name, units, dataType, description, attributedType).result.Success?
    ensures var r := AddAttributeDescription(s, network, name, units, dataType, description, attributedType);
            && GetAttributeDescription(r.after, network, name, attributedType) == Success(Some(r.result.value))
            && Lower(name) in ColumnsOf(r.after.networks[network.tableName], attributedType)
  {
    var r := AddAttributeDescription(s, network, name, units, dataType, description, attributedType);
    assert network.tableName in s.networks;
    FindDescriptionOfAppended(s.descriptions, r.result.value);
  }

  lemma {:induction false} FindDescriptionOfAppended(descriptions: seq<AttributeDescription>, d: AttributeDescription)
    requires FindDescription(descriptions, d.networkTableName, d.name, d.attributedType).None?
    ensures FindDescription(descriptions + [d], d.networkTableName, d.name, d.attributedType) == Some(d)
  {
    if |descriptions| > 0 {
      assert (descriptions + [d])[1..] == descriptions[1..] + [d];
      FindDescriptionOfAppended(descriptions[1..], d);
    }
  }

  /** Declaring the same (network, name, attributed type) twice: the second declaration fails
      at the INSERT and changes nothing, so no second column is added. */
  lemma AddAttributeDescriptionTwiceFails(s: Store, network: Network, name: string, units: string, dataType: DataType,
                                          description: string, attributedType: AttributedType,
                                          units': string, dataType': DataType, description': string)
    requires Valid(s)
    requires AddAttributeDescription(s, network, name, units, dataType, description, attributedType).result.Success?
    requires units' != "" && description' != ""
    ensures var first := AddAttributeDescription(s, network, name, units, dataType, description, attributedType);
            AddAttributeDescription(first.after, network, name, units', dataType', description', attributedType)
              == Outcome(first.after, Failure(ConstraintViolation))
  {
    AddThenGetAttributeDescription(s, network, name, units, dataType, description, attributedType);
  }

  /** The source's own ordering: declaring an Edge attribute named like one of the edge
      table's own columns registers the description, then the ALTER fails, and the store is
      left with a description that has no column. */
  lemma AsWrittenLeavesOrphanDescription()
    ensures var network := Network("roads", "Roads", "road graph", 4326);
            var s := Store({AttributeDescriptionTableName, "roads", NodeTableName("roads")},
                           map["roads" := EmptyNetwork(network)], [], 1, true);
            var r := AddAttributeDescriptionAsWritten(s, network, "from_node", "m", Real, "start", EdgeAttribute);
            && Valid(s)
            && r.result == Failure(StoreError)
            && |r.after.descriptions| == 1
            && !Valid(r.after)
  {
    var network := Network("roads", "Roads", "road graph", 4326);
    var s := Store({AttributeDescriptionTableName, "roads", NodeTableName("roads")},
                   map["roads" := EmptyNetwork(network)], [], 1, true);
    var r := AddAttributeDescriptionAsWritten(s, network, "from_node", "m", Real, "start", EdgeAttribute);
    assert Lower("from_node") == "from_node";
    assert ColumnClash(s.networks["roads"], "from_node", EdgeAttribute);
    assert r.after.descriptions[0].name == "from_node";
    assert "from_node" !in r.after.networks["roads"].edgeColumns;
    assert !DescriptionsHaveColumns(r.after);
  }
}
