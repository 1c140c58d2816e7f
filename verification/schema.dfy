/** Attribute descriptions and the schema checks the network extension runs before
    touching an attribute column (GeoPackageNetworkExtension.getSchema / getColumnNames),
    plus the naming rule that ties a network to its node-attribute table. */
module Schema {
  import opened Common

  datatype DataType = Integer | Real | Text | Blob | Boolean

  datatype AttributedType = NodeAttribute | EdgeAttribute

  /** A dynamically typed attribute value, as bound to a prepared statement. */
  datatype Value =
    | Null
    | IntegerValue(i: int)
    | RealValue(r: real)
    | TextValue(s: string)
    | BlobValue(bytes: seq<bv8>)
    | BooleanValue(flag: bool)

  /** One row of the network_attribute_description table. */
  datatype AttributeDescription = AttributeDescription(
    identifier: int,
    networkTableName: string,
    name: string,
    units: string,
    dataType: DataType,
    description: string,
    attributedType: AttributedType)

  /** Whether a value may be stored under a description's declared type. A null fits
      every (nullable) column; otherwise the value's tag must be the declared type. */
  predicate DataTypeAgrees(d: AttributeDescription, v: Value) {
    match v
    case Null => true
    case IntegerValue(_) => d.dataType == Integer
    case RealValue(_) => d.dataType == Real
    case TextValue(_) => d.dataType == Text
    case BlobValue(_) => d.dataType == Blob
    case BooleanValue(_) => d.dataType == Boolean
  }

  const NodeAttributesTableSuffix: string := "_node_attributes"

  /** The node-attribute table of a network, for names already known to be non-empty. */
  function NodeTableName(networkTableName: string): string {
    networkTableName + NodeAttributesTableSuffix
  }

  /** getNodeAttributesTableName(String): rejects an empty name, otherwise appends the suffix. */
  function GetNodeAttributesTableName(networkTableName: string): (r: Result<string>)
    ensures r.Failure? <==> networkTableName == ""
    ensures r.Failure? ==> r.error == InvalidArgument
    ensures r.Success? ==> |r.value| == |networkTableName| + 16
                           && r.value[..|networkTableName|] == networkTableName
                           && r.value[|networkTableName|..] == "_node_attributes"
  {
    if networkTableName == "" then Failure(InvalidArgument)
    else Success(NodeTableName(networkTableName))
  }

  /** Distinct networks own distinct node-attribute tables, and no network's node-attribute
      table has the network's own name. */
  lemma NodeTableNameInjective(a: string, b: string)
    ensures NodeTableName(a) == NodeTableName(b) ==> a == b
    ensures NodeTableName(a) != a
  {
    if NodeTableName(a) == NodeTableName(b) {
      assert |a| == |b|;
      assert a == NodeTableName(a)[..|a|];
      assert b == NodeTableName(b)[..|b|];
    }
    assert |NodeTableName(a)| == |a| + 16;
  }

  /** The property getSchema checks: every description belongs to the table of the first one
      and has the requested attributed type. */
  predicate SameSchema(attributedType: AttributedType, table: string, descriptions: seq<AttributeDescription>) {
    forall i :: 0 <= i < |descriptions| ==>
      descriptions[i].networkTableName == table && descriptions[i].attributedType == attributedType
  }

  /** The stream in getSchema: maps each description to its name, throwing at the first one
      that belongs to another table or has the other attributed type. */
  function SchemaNames(attributedType: AttributedType, table: string, descriptions: seq<AttributeDescription>): (r: Result<seq<string>>)
    ensures r.Success? <==> SameSchema(attributedType, table, descriptions)
    ensures r.Failure? ==> r.error == SchemaMismatch
    ensures r.Success? ==> |r.value| == |descriptions|
                           && forall i :: 0 <= i < |descriptions| ==> r.value[i] == descriptions[i].name
  {
    if |descriptions| == 0 then Success([])
    else
      var d := descriptions[0];
      if d.networkTableName != table || d.attributedType != attributedType then Failure(SchemaMismatch)
      else
        var rest :- SchemaNames(attributedType, table, descriptions[1..]);
        Success([d.name] + rest)
  }

  /** getSchema: the network table shared by all descriptions and their names, in input order. */
  function GetSchema(attributedType: AttributedType, descriptions: seq<AttributeDescription>): (r: Result<(string, seq<string>)>)
    ensures r.Success? <==> |descriptions| > 0 && SameSchema(attributedType, descriptions[0].networkTableName, descriptions)
    ensures |descriptions| == 0 ==> r == Failure(InvalidArgument)
    ensures r.Failure? && |descriptions| > 0 ==> r.error == SchemaMismatch
    ensures r.Success? ==> r.value.0 == descriptions[0].networkTableName
                           && |r.value.1| == |descriptions|
                           && forall i :: 0 <= i < |descriptions| ==> r.value.1[i] == descriptions[i].name
  {
    if |descriptions| == 0 then Failure(InvalidArgument)
    else
      var table := descriptions[0].networkTableName;
      var names :- SchemaNames(attributedType, table, descriptions);
      Success((table, names))
  }

  /** getColumnNames: like getSchema, except that an empty list yields no names instead of failing. */
  function GetColumnNames(attributedType: AttributedType, descriptions: seq<AttributeDescription>): (r: Result<seq<string>>)
    ensures |descriptions| == 0 ==> r == Success([])
    ensures |descriptions| > 0 ==> (r.Success? <==> GetSchema(attributedType, descriptions).Success?)
    ensures r.Success? && |descriptions| > 0 ==> r.value == GetSchema(attributedType, descriptions).value.1
  {
    if |descriptions| == 0 then Success([])
    else SchemaNames(attributedType, descriptions[0].networkTableName, descriptions)
  }
}
