/** Worked instances of the analyses on small inputs: a module with one
    entity and one database context, and a pair of mutually calling
    methods. */
module Scenarios {
  import opened Wrappers
  import opened Text
  import opened Dictionaries
  import opened Metadata
  import opened TypeNames
  import opened Entities
  import opened DataSets
  import opened EntityGraph
  import opened CallGraph

  /** The name the C# compiler gives the backing field of an
      auto-implemented property. */
  function BackingField(property: string): string
  {
    "<" + property + ">k__BackingField"
  }

  /** An entity with two auto-implemented properties. */
  const Invoice: TypeDef := TypeDef(
    "Models.Invoice",
    [FieldDef(BackingField("Amount"), "System.Decimal"),
     FieldDef(BackingField("Currency"), "System.String")],
    [])

  const InvoiceContext: TypeDef := TypeDef("Models.Context.InvoiceContext", [], [])

  lemma InvoiceMentionsModels()
    ensures OccursAt(Invoice.fullName, ModelMarker, 0)
  {
  }

  lemma InvoiceContextMentionsContext()
    ensures OccursAt(InvoiceContext.fullName, ContextMarker, 7)
  {
    assert InvoiceContext.fullName == "Models." + ContextMarker + ".InvoiceContext";
  }

  lemma InvoiceLacksMarkerLetters()
    ensures 'R' !in Invoice.fullName && 'C' !in Invoice.fullName
  {
  }

  /** A marker with a letter the name lacks is not contained in it. */
  lemma NotContainedForLackingLetter(name: string, marker: string, k: int)
    requires 0 <= k < |marker| && marker[k] !in name
    ensures !Contains(name, marker)
  {
  }

  lemma InvoiceIsNoRepository()
    ensures !Contains(Invoice.fullName, RepositoryInterfacesMarker)
    ensures !Contains(Invoice.fullName, RepositoryImplementationsMarker)
  {
  }

  /** The entity type passes the filter. */
  lemma InvoiceIsModel()
    ensures IsModelType(Invoice.fullName)
  {
    var name := Invoice.fullName;
    InvoiceMentionsModels();
    ContainsIffOccurs(name, ModelMarker);
    InvoiceIsNoRepository();
    InvoiceLacksMarkerLetters();
    NotContainedForLackingLetter(name, ContextMarker, 0);
  }

  /** The context type is excluded by the "Context" marker, although its
      name mentions "Models". */
  lemma InvoiceContextIsNotModel()
    ensures !IsModelType(InvoiceContext.fullName)
  {
    InvoiceContextMentionsContext();
    ContainsIffOccurs(InvoiceContext.fullName, ContextMarker);
  }

  /** The descriptors of the entity's two auto-property backing fields. */
  const InvoiceDescriptors: seq<string> := ["System.Decimal Amount", "System.String Currency"]

  lemma InvoiceKey()
    ensures EntityKey(Invoice) == "Invoice"
  {
    assert Invoice.fullName == "Models" + "." + "Invoice";
    GetClassNameOfQualified("Models", "Invoice");
  }

  /** The descriptor of the backing field of a property `name` of type
      `typeName`. */
  lemma BackingFieldDescriptor(typeName: string, name: string)
    requires '<' !in typeName && '>' !in name
    ensures Descriptor(FieldDef(BackingField(name), typeName)) == typeName + " " + name
  {
    ExtractGenericTypeOfPlainName(typeName);
    ExtractGenericTypeBackingField(name);
  }

  lemma InvoiceLiterals()
    ensures '<' !in "System.Decimal" && '<' !in "System.String"
    ensures '>' !in "Amount" && '>' !in "Currency"
    ensures "System.Decimal" + " " + "Amount" == InvoiceDescriptors[0]
    ensures "System.String" + " " + "Currency" == InvoiceDescriptors[1]
  {
  }

  lemma InvoiceFieldDescriptors()
    ensures Descriptors(Invoice.fields) == InvoiceDescriptors
  {
    var ds := Descriptors(Invoice.fields);
    InvoiceLiterals();
    DescriptorsFollowFields(Invoice.fields);
    BackingFieldDescriptor("System.Decimal", "Amount");
    BackingFieldDescriptor("System.String", "Currency");
  }

  /** Of an included type followed by an excluded one, only the included
      one is extracted. */
  lemma IncludedThenExcluded(t1: TypeDef, t2: TypeDef)
    requires IsModelType(t1.fullName) && !IsModelType(t2.fullName)
    ensures GetModelTypesAndMembers([t1, t2]) == [Entry(EntityKey(t1), Descriptors(t1.fields))]
  {
    var types := [t1, t2];
    SelectEntitiesStep(types, IsModelType);
    assert types[..1] == [t1];
    SelectEntitiesStep([t1], IsModelType);
    assert [t1][..0] == [];
  }

  /** Of the entity and its database context, only the entity is extracted,
      under its simple name, with one descriptor per field. */
  lemma InvoiceModule()
    ensures GetModelTypesAndMembers([Invoice, InvoiceContext]) == [Entry("Invoice", InvoiceDescriptors)]
  {
    InvoiceIsModel();
    InvoiceContextIsNotModel();
    IncludedThenExcluded(Invoice, InvoiceContext);
    InvoiceKey();
    InvoiceFieldDescriptors();
  }

  /** The graph of the extracted entity: the entity and its two descriptors
      as vertices, and an edge from the entity to each descriptor. */
  lemma InvoiceGraph()
    ensures var g := CreateGraph([Entry("Invoice", [Some("System.Decimal Amount"), Some("System.String Currency")])]);
            && g.vertices == {"Invoice", "System.Decimal Amount", "System.String Currency"}
            && g.edges == [Edge("Invoice", "System.Decimal Amount"), Edge("Invoice", "System.String Currency")]
  {
  }

  /** A type lookup that knows the two system types of the entity. */
  function SystemTypes(typeName: string): bool
  {
    typeName == "System.Decimal" || typeName == "System.String"
  }

  /** The table of an entity with two members whose types the lookup
      knows. */
  lemma TwoResolvedColumns(key: string, t1: string, m1: string, t2: string, m2: string, lookup: TypeLookup)
    requires ' ' !in t1 && ' ' !in t2 && lookup(t1) && lookup(t2)
    ensures TableFor(Entry(key, [t1 + " " + m1, t2 + " " + m2]),
                     Table(key, [Column(m1, Resolved(t1)), Column(m2, Resolved(t2))]),
                     lookup)
  {
    ColumnForDescriptor(t1, m1, lookup);
    ColumnForDescriptor(t2, m2, lookup);
  }

  lemma SystemTypeNamesHaveNoSpace()
    ensures ' ' !in "System.Decimal" && ' ' !in "System.String"
  {
  }

  /** The entity's table: named by the entity, one typed column per
      property. */
  lemma InvoiceTable()
    ensures TableFor(Entry("Invoice", InvoiceDescriptors),
                     Table("Invoice", [Column("Amount", Resolved("System.Decimal")), Column("Currency", Resolved("System.String"))]),
                     SystemTypes)
  {
    InvoiceLiterals();
    SystemTypeNamesHaveNoSpace();
    TwoResolvedColumns("Invoice", "System.Decimal", "Amount", "System.String", "Currency", SystemTypes);
  }

  /** Two methods of assembly 1 that call each other. */
  const MethodA: MethodDef := MethodDef("A", "A", 1, Some([Instruction(Call, MethodOperand(MethodRef("B")))]))
  const MethodB: MethodDef := MethodDef("B", "B", 1, Some([Instruction(Callvirt, MethodOperand(MethodRef("A")))]))
  const Mutual: Resolver := [Entry("A", MethodA), Entry("B", MethodB)]

  /** With assembly 0 as the main assembly, the walk from A descends into B,
      finds A visited and stops: each method is analysed once and each call
      reported once. */
  lemma MutualRecursionTerminates()
    ensures AnalyzeMethod(Mutual, 0, MethodA, StartWalk) ==
              Walk({"A", "B"}, ["A", "B"], [Report("A", "B"), Report("B", "A")])
  {
    var w1 := Walk({"A"}, ["A"], []);
    var w2 := w1.(reports := [Report("A", "B")]);
    var w3 := Walk({"A", "B"}, ["A", "B"], [Report("A", "B")]);
    var w4 := w3.(reports := [Report("A", "B"), Report("B", "A")]);
    assert Get(Mutual, "B") == Some(MethodB);
    assert Get(Mutual, "A") == Some(MethodA);
    // B's scan: report B -> A, then A is already visited.
    assert AnalyzeMethod(Mutual, 0, MethodA, w4) == w4;
    assert Descend(Mutual, 0, MethodB, MethodRef("A"), w4) == w4;
    assert MethodB.body.value[1..] == [];
    assert ScanCalls(Mutual, 0, MethodB, MethodB.body.value, w3) == w4;
    assert Walk(w2.visited + {"B"}, w2.order + ["B"], w2.reports) == w3;
    assert AnalyzeMethod(Mutual, 0, MethodB, w2) == w4;
    // A's scan: report A -> B, then descend into B.
    assert w1.(reports := w1.reports + [Report("A", "B")]) == w2;
    assert Descend(Mutual, 0, MethodA, MethodRef("B"), w2) == w4;
    assert MethodA.body.value[1..] == [];
    assert ScanCalls(Mutual, 0, MethodA, MethodA.body.value, w1) == w4;
    assert Walk(StartWalk.visited + {"A"}, StartWalk.order + ["A"], StartWalk.reports) == w1;
  }

  /** With assembly 1 itself as the main assembly, the walk from A reports
      its call and descends nowhere. */
  lemma MainAssemblyDoesNotDescend()
    ensures AnalyzeMethod(Mutual, 1, MethodA, StartWalk) == Walk({"A"}, ["A"], [Report("A", "B")])
  {
    var w1 := Walk({"A"}, ["A"], []);
    var w2 := w1.(reports := [Report("A", "B")]);
    assert Descend(Mutual, 1, MethodA, MethodRef("B"), w2) == w2;
    assert MethodA.body.value[1..] == [];
    assert ScanCalls(Mutual, 1, MethodA, MethodA.body.value, w1) == w2;
    assert Walk(StartWalk.visited + {"A"}, StartWalk.order + ["A"], StartWalk.reports) == w1;
  }
}
