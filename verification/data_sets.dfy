/** Tabular projection of the extracted entities
    (EntityAnalysisHelper.ConvertToDataSet): one table per entity, one column
    per member descriptor. Runtime type lookup by name is a parameter. */
module DataSets {
  import opened Text
  import opened Dictionaries
  import opened TypeNames

  /** A column's data type: the type the lookup found for the descriptor's
      type part, or `object` when the lookup failed. */
  datatype ColumnType = Resolved(typeName: string) | ObjectType

  datatype Column = Column(columnName: string, columnType: ColumnType)

  datatype Table = Table(name: string, columns: seq<Column>)

  /** The runtime type lookup: whether a type name resolves to a type. */
  type TypeLookup = string -> bool

  /** String.Split with the single separator ' ' and a count of 2: the text
      before the first space and the rest, or the whole string when it holds
      no space. */
  function SplitAtFirstSpace(s: string): (parts: seq<string>)
    ensures 1 <= |parts| <= 2
    ensures |parts| == 1 <==> ' ' !in s
    ensures |parts| == 1 ==> parts[0] == s
    ensures |parts| == 2 ==> s == parts[0] + " " + parts[1] && ' ' !in parts[0]
  {
    var space := IndexOfFrom(s, ' ', 0);
    IndexOfFromSpec(s, ' ', 0);
    if space == -1 then [s] else [s[..space], s[space + 1..]]
  }

  /** Splitting a descriptor built from a space-free type name recovers the
      type name and the member name. */
  lemma SplitDescriptor(typeName: string, memberName: string)
    requires ' ' !in typeName
    ensures SplitAtFirstSpace(typeName + " " + memberName) == [typeName, memberName]
  {
    var s := typeName + " " + memberName;
    assert s[|typeName|] == ' ';
    assert forall k :: 0 <= k < |typeName| ==> s[k] == typeName[k];
    assert s[..|typeName|] == typeName;
    assert s[|typeName| + 1..] == memberName;
    IndexOfFromSpec(s, ' ', 0);
  }

  /** The annotation a fallback column's name gets: the unresolved type's
      simple name in parentheses. */
  function SimpleNameSuffix(typeName: string): string
  {
    " (" + GetClassName(typeName) + ")"
  }

  /** The column for one member descriptor: labelled with the text after the
      first space (or the whole descriptor), typed by the lookup of the text
      before it; an unresolved type gives an `object` column whose columnName
      carries the type's simple name in parentheses. */
  function ColumnFor(member: string, lookup: TypeLookup): (c: Column)
    ensures c.columnType.Resolved? ==> lookup(c.columnType.typeName) && ' ' !in c.columnType.typeName
    ensures c.columnType.ObjectType? ==> |c.columnName| >= 3 && c.columnName[|c.columnName| - 1] == ')'
  {
    var parts := SplitAtFirstSpace(member);
    var columnName := if |parts| == 2 then parts[1] else member;
    if lookup(parts[0]) then Column(columnName, Resolved(parts[0]))
    else
      var annotated := columnName + SimpleNameSuffix(parts[0]);
      assert annotated[|annotated| - 1] == ')';
      Column(annotated, ObjectType)
  }

  /** The column of a descriptor `typeName + " " + memberName` whose type
      name holds no space: labelled by the member name, typed by the type
      name, or the fallback `object` column with the simple type name. */
  lemma ColumnForDescriptor(typeName: string, memberName: string, lookup: TypeLookup)
    requires ' ' !in typeName
    ensures lookup(typeName) ==>
      ColumnFor(typeName + " " + memberName, lookup) == Column(memberName, Resolved(typeName))
    ensures !lookup(typeName) ==>
      ColumnFor(typeName + " " + memberName, lookup)
        == Column(memberName + SimpleNameSuffix(typeName), ObjectType)
  {
    SplitDescriptor(typeName, memberName);
  }

  /** A member without a space is both columnName and type name. */
  lemma ColumnForBareName(member: string, lookup: TypeLookup)
    requires ' ' !in member
    ensures lookup(member) ==> ColumnFor(member, lookup) == Column(member, Resolved(member))
    ensures !lookup(member) ==>
      ColumnFor(member, lookup) == Column(member + SimpleNameSuffix(member), ObjectType)
  {
    var parts := SplitAtFirstSpace(member);
    assert |parts| == 1 && parts[0] == member;
  }

  /** `columns` has one column per descriptor of `members`, in order. */
  ghost predicate ColumnsFor(members: seq<string>, columns: seq<Column>, lookup: TypeLookup)
  {
    |columns| == |members|
    && forall j :: 0 <= j < |columns| ==> columns[j] == ColumnFor(members[j], lookup)
  }

  /** The table of one entity: named by its key, columns from its
      descriptors. */
  ghost predicate TableFor(entity: Entry<string, seq<string>>, table: Table, lookup: TypeLookup)
  {
    table.name == entity.key && ColumnsFor(entity.value, table.columns, lookup)
  }

  /** `f` applied to each element of `s`, the last element's image added
      last. */
  function Map<A, B>(f: A -> B, s: seq<A>): seq<B>
    decreases |s|
  {
    if |s| == 0 then [] else Map(f, s[..|s| - 1]) + [f(s[|s| - 1])]
  }

  lemma {:induction false} MapFollowsElements<A, B>(f: A -> B, s: seq<A>)
    ensures |Map(f, s)| == |s|
    ensures forall j :: 0 <= j < |s| ==> Map(f, s)[j] == f(s[j])
    decreases |s|
  {
    if |s| > 0 {
      var init := s[..|s| - 1];
      MapFollowsElements(f, init);
      forall j | 0 <= j < |init|
        ensures Map(f, s)[j] == f(s[j])
      {
        assert init[j] == s[j];
      }
    }
  }

  /** The columns of one table, built in descriptor order. */
  method ColumnsOf(members: seq<string>, lookup: TypeLookup) returns (columns: seq<Column>)
    ensures ColumnsFor(members, columns, lookup)
  {
    var column := (member: string) => ColumnFor(member, lookup);
    columns := [];
    var j := 0;
    while j < |members|
      invariant 0 <= j <= |members|
      invariant columns == Map(column, members[..j])
    {
      assert members[..j + 1][..j] == members[..j];
      columns := columns + [column(members[j])];
      j := j + 1;
    }
    assert members[..j] == members;
    MapFollowsElements(column, members);
  }

  /** ConvertToDataSet: the tables in entity order, each named by its key and
      holding one column per descriptor in descriptor order. */
  method ConvertToDataSet(entities: Dict<string, seq<string>>, lookup: TypeLookup) returns (tables: seq<Table>)
    ensures |tables| == |entities|
    ensures forall i :: 0 <= i < |tables| ==> TableFor(entities[i], tables[i], lookup)
  {
    tables := [];
    var i := 0;
    while i < |entities|
      invariant 0 <= i <= |entities|
      invariant |tables| == i
      invariant forall i' :: 0 <= i' < i ==> TableFor(entities[i'], tables[i'], lookup)
    {
      var columns := ColumnsOf(entities[i].value, lookup);
      tables := tables + [Table(entities[i].key, columns)];
      i := i + 1;
    }
  }

  /** Every column of `object` type comes from a descriptor whose type part
      the lookup rejected, and its name ends with that type's simple name in
      parentheses; every other column carries the resolved type part. */
  lemma FallbackColumns(member: string, lookup: TypeLookup)
    ensures var typePart := SplitAtFirstSpace(member)[0];
            ColumnFor(member, lookup).columnType == ObjectType <==> !lookup(typePart)
    ensures var typePart := SplitAtFirstSpace(member)[0];
            lookup(typePart) ==> ColumnFor(member, lookup).columnType == Resolved(typePart)
    ensures var typePart := SplitAtFirstSpace(member)[0];
            !lookup(typePart) ==> IsSuffix(SimpleNameSuffix(typePart), ColumnFor(member, lookup).columnName)
  {
  }

  /** The annotation of a namespace-qualified type names its last segment. */
  lemma QualifiedNameSuffix(namespace: string, name: string, member: string)
    requires |name| > 0 && '.' !in name
    ensures member + SimpleNameSuffix(namespace + "." + name) == member + " (" + name + ")"
  {
    GetClassNameOfQualified(namespace, name);
    assert member + (" (" + name + ")") == member + " (" + name + ")";
  }

  /** A member whose namespace-qualified type the lookup does not know gets
      an `object` column named by the member and the type's simple name. */
  lemma UnresolvedQualifiedColumn(namespace: string, name: string, member: string, lookup: TypeLookup)
    requires |name| > 0 && '.' !in name
    requires ' ' !in namespace + "." + name
    requires !lookup(namespace + "." + name)
    ensures ColumnFor(namespace + "." + name + " " + member, lookup) == Column(member + " (" + name + ")", ObjectType)
  {
    ColumnForDescriptor(namespace + "." + name, member, lookup);
    QualifiedNameSuffix(namespace, name, member);
  }
}
