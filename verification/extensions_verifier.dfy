/** The row-level rules the GeoPackage extensions verifier applies to gpkg_extensions
    (Requirements 80, 82 and 84 of the OGC GeoPackage Encoding Standard, clause 2.5.2):
    the table_name/column_name pairing, the shape of an extension name and the scope value. */
module ExtensionsVerifier {
  import opened Common
  import Store

  /** One gpkg_extensions row as the verifier reads it; table_name and column_name may be NULL. */
  datatype ExtensionRow = ExtensionRow(tableName: Option<string>, columnName: Option<string>,
                                       extensionName: string, scope: string)

  // ------------------------------------------------------------ null-safe equals

  /** equals: two possibly-null strings are equal when both are null or both hold the same text. */
  function NullSafeEquals(first: Option<string>, second: Option<string>): (r: bool)
    ensures r <==> first == second
  {
    match first
    case None => second.None?
    case Some(text) => second.Some? && second.value == text
  }

  // ------------------------------------------------------------ Requirement 80

  /** A row may leave table_name NULL only if its column_name is NULL too. */
  function Requirement80Row(row: ExtensionRow): (r: bool)
    ensures r <==> row.tableName.Some? || row.columnName.None?
    ensures row.columnName.Some? && !r ==> row.tableName.None?
  {
    if row.tableName.None? then row.columnName.None? else true
  }

  /** Requirement80's first loop: it asserts the row rule for every row, failing at the first
      row that breaks it. */
  function Requirement80Rows(rows: seq<ExtensionRow>): (r: Option<ExtensionRow>)
    ensures r.None? <==> forall i :: 0 <= i < |rows| ==> Requirement80Row(rows[i])
    ensures r.Some? ==> r.value in rows && !Requirement80Row(r.value)
  {
    if |rows| == 0 then None
    else if !Requirement80Row(rows[0]) then Some(rows[0])
    else Requirement80Rows(rows[1..])
  }

  // ------------------------------------------------------------ Requirement 82

  function FirstIndex(s: string, c: char): (r: Option<nat>)
    ensures r.None? <==> c !in s
    ensures r.Some? ==> r.value < |s| && s[r.value] == c && c !in s[..r.value]
  {
    if |s| == 0 then None
    else if s[0] == c then Some(0)
    else match FirstIndex(s[1..], c)
      case None => None
      case Some(i) => assert s[..i + 1] == [s[0]] + s[1..][..i]; Some(i + 1)
  }

  /** name.split("_", 2): the text before the first underscore and the rest after it, or the
      whole name alone when it has no underscore. An underscore at either end leaves an empty
      part, since a positive limit keeps empty leading and trailing pieces. */
  function SplitAuthor(name: string): (parts: seq<string>)
    ensures 1 <= |parts| <= 2
    ensures |parts| == 1 <==> '_' !in name
    ensures |parts| == 1 ==> parts[0] == name
    ensures |parts| == 2 ==> name == parts[0] + "_" + parts[1] && '_' !in parts[0]
  {
    match FirstIndex(name, '_')
    case None => [name]
    case Some(i) => assert name == name[..i] + "_" + name[i + 1..]; [name[..i], name[i + 1..]]
  }

  predicate IsAlphanumeric(c: char) {
    'a' <= c <= 'z' || 'A' <= c <= 'Z' || '0' <= c <= '9'
  }

  /** The whole text matches [a-zA-Z0-9]+. */
  predicate MatchesAuthor(s: string) {
    |s| > 0 && forall i :: 0 <= i < |s| ==> IsAlphanumeric(s[i])
  }

  /** The whole text matches [a-zA-Z0-9_]+. */
  predicate MatchesRemainder(s: string) {
    |s| > 0 && forall i :: 0 <= i < |s| ==> IsAlphanumeric(s[i]) || s[i] == '_'
  }

  /** verifyExtensionName: None (null) for a valid name, the name itself otherwise. */
  function VerifyExtensionName(name: string): (r: Option<string>)
    ensures r.Some? ==> r.value == name
  {
    var author := SplitAuthor(name);
    if |author| != 2 then Some(name)
    else if author[0] == "gpkg" || !MatchesAuthor(author[0]) || !MatchesRemainder(author[1]) then Some(name)
    else None
  }

  /** Requirement 82 as the code reads it: an author of letters and digits other than gpkg, an
      underscore, and a non-empty remainder of letters, digits and underscores. */
  ghost predicate WellFormedName(name: string) {
    exists author, rest :: name == author + "_" + rest
                           && MatchesAuthor(author) && author != "gpkg" && MatchesRemainder(rest)
  }

  lemma VerifyExtensionNameIsRequirement82(name: string)
    ensures VerifyExtensionName(name).None? <==> WellFormedName(name)
  {
    var parts := SplitAuthor(name);
    if WellFormedName(name) {
      var author, rest :| name == author + "_" + rest
                          && MatchesAuthor(author) && author != "gpkg" && MatchesRemainder(rest);
      SplitAtAuthor(name, author, rest);
    }
  }

  /** An author free of underscores is exactly what split("_", 2) cuts off. */
  lemma SplitAtAuthor(name: string, author: string, rest: string)
    requires name == author + "_" + rest && '_' !in author
    ensures SplitAuthor(name) == [author, rest]
  {
    var parts := SplitAuthor(name);
    assert name[|author|] == '_';
    var p := parts[0];
    assert p == name[..|author|] == author;
    assert parts[1] == name[|author| + 1..] == rest;
  }

  lemma NoUnderscoreIsInvalid(name: string)
    requires '_' !in name
    ensures VerifyExtensionName(name) == Some(name)
  {
  }

  /** A leading underscore leaves an empty author. */
  lemma LeadingUnderscoreIsInvalid(name: string)
    requires |name| > 0 && name[0] == '_'
    ensures VerifyExtensionName(name) == Some(name)
  {
  }

  /** An underscore that ends the name and is its only one leaves an empty remainder. */
  lemma TrailingUnderscoreIsInvalid(author: string)
    requires '_' !in author
    ensures VerifyExtensionName(author + "_") == Some(author + "_")
  {
    SplitAtAuthor(author + "_", author, "");
  }

  /** The gpkg author is refused whatever follows it. */
  lemma GpkgAuthorIsInvalid(rest: string)
    ensures VerifyExtensionName("gpkg_" + rest) == Some("gpkg_" + rest)
  {
    assert "gpkg_" + rest == "gpkg" + "_" + rest;
    SplitAtAuthor("gpkg_" + rest, "gpkg", rest);
  }

  /** Underscores after the first belong to the remainder and are allowed there. */
  lemma FurtherUnderscoresAllowed(author: string, rest: string)
    requires MatchesAuthor(author) && author != "gpkg" && MatchesRemainder(rest)
    ensures VerifyExtensionName(author + "_" + rest + "_" + rest) == None
  {
    var name := author + "_" + (rest + "_" + rest);
    assert author + "_" + rest + "_" + rest == name;
    var tail := rest + "_" + rest;
    assert MatchesRemainder(tail) by {
      forall i | 0 <= i < |tail| ensures IsAlphanumeric(tail[i]) || tail[i] == '_' {
        if i < |rest| {
          assert tail[i] == rest[i];
        } else if i > |rest| {
          assert tail[i] == rest[i - |rest| - 1];
        }
      }
    }
    SplitAtAuthor(name, author, tail);
  }

  /** The network extension registers itself under a name the verifier accepts. */
  lemma NetworkExtensionNameIsValid()
    ensures VerifyExtensionName(Store.ExtensionName) == None
  {
    assert Store.ExtensionName == "SWAGD" + "_" + "network";
    assert MatchesAuthor("SWAGD") && "SWAGD"[0] != "gpkg"[0];
    assert MatchesRemainder("network");
    SplitAtAuthor(Store.ExtensionName, "SWAGD", "network");
  }

  /** Requirement82: the set of extension names that fail verifyExtensionName. */
  function InvalidExtensionNames(rows: seq<ExtensionRow>): (r: set<string>)
    ensures forall name :: name in r <==>
              exists i :: 0 <= i < |rows| && rows[i].extensionName == name && !WellFormedName(name)
  {
    var r := set i | 0 <= i < |rows| && VerifyExtensionName(rows[i].extensionName).Some? :: rows[i].extensionName;
    assert forall name :: VerifyExtensionName(name).Some? <==> !WellFormedName(name) by {
      forall name {
        VerifyExtensionNameIsRequirement82(name);
      }
    }
    r
  }

  // ------------------------------------------------------------ Requirement 84

  /** The scope must be exactly the lower-case "read-write" or "write-only". */
  function ValidScope(scope: string): (r: bool)
    ensures r ==> |scope| == 10
    ensures scope == "read-write" ==> r
    ensures scope == "write-only" ==> r
  {
    scope == "read-write" || scope == "write-only"
  }

  /** A scope differing from both allowed values in letter case is refused. */
  lemma UpperCaseScopeIsInvalid()
    ensures !ValidScope("READ-WRITE") && !ValidScope("Write-Only")
  {
    assert "READ-WRITE"[0] != "read-write"[0] && "READ-WRITE"[0] != "write-only"[0];
    assert "Write-Only"[0] != "read-write"[0] && "Write-Only"[0] != "write-only"[0];
  }

  /** Requirement84: the scope values of the rows selected by scope != 'read-write' AND
      scope != 'write-only', in row order; the requirement holds when there are none. */
  function InvalidScopes(rows: seq<ExtensionRow>): (r: seq<string>)
    ensures |r| <= |rows|
    ensures forall s :: s in r <==> exists i :: 0 <= i < |rows| && rows[i].scope == s && !ValidScope(s)
    ensures r == [] <==> forall i :: 0 <= i < |rows| ==> ValidScope(rows[i].scope)
  {
    if |rows| == 0 then []
    else
      var tail := InvalidScopes(rows[1..]);
      assert forall i :: 1 <= i < |rows| ==> rows[i] == rows[1..][i - 1];
      if ValidScope(rows[0].scope) then tail else [rows[0].scope] + tail
  }
}
