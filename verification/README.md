# Program analysis of a compiled .NET module, modelled in Dafny

The program reads a compiled .NET assembly with a metadata reader and runs
four analyses over it:

- **Entity extraction** (`EntityAnalysisHelper.GetModelTypesAndMembers`). It keeps the types whose full name mentions `Models` and none of `Models.Repositories.Interfaces`, `Models.Repositories.Implementations` or `Context`. Each such type is stored under its simple class name with one descriptor per field. A descriptor is the normalised field type name, a space, and the normalised field name. Normalising (`ExtractGenericType`) takes the text inside the first `<…>`; `GetClassName` takes the text after the last dot.
- **Tabular projection** (`ConvertToDataSet`). It builds one table per entity and one column per descriptor. A column is typed by a runtime type lookup, and falls back to `object` with the simple type name appended to the column name.
- **Entity graph** (`CreateGraph`). The vertices are the entities and their members; each entity has an edge to each member.
- **Call report** (`MainController.AnalyzeAssemblyPath` / `AnalyzeMethod`). This is a depth-first walk from the entry point. It prints every `call`/`callvirt` to a method reference. It descends into a resolved callee only while the method being scanned lies outside the main assembly.
- **Type listing** (`GetTypesAndMethods`). It maps each type's full name to its method names.

The model keeps the metadata as plain immutable records:

- `Metadata` holds types, fields, methods, instructions and operands.
- A .NET `Dictionary` is an insertion-ordered association list (`Dictionaries`). An overwrite keeps the key's slot and changes only its value.
- The graph is a vertex set plus the sequence of added edges (`EntityGraph`).
- The call walk threads a `Walk` value. It holds the visited set, the names in the order they were visited, and the printed reports (`CallGraph`).
- Three outside services become parameters:
  - the metadata reader's `Resolve()` becomes a resolver table keyed by the reference's full name;
  - `Type.GetType` becomes a `TypeLookup` predicate;
  - the main assembly becomes an assembly identity.
- The console output of the call report is a list of lines (`Controller`).

One point where the code's behaviour is easy to misread: the recursion test at `MainController.cs:69` checks the *calling* method's assembly, not the callee's. The walk started by `AnalyzeAssemblyPath` begins in the main assembly, so it prints the entry point's direct calls and never descends. The model follows the code and proves exactly this (`Controller.AnalyzeAssemblyPathReportsDirectCalls`). A call from the main module into another module is therefore reported but not expanded. A call made by a method outside the main module is expanded.

## Model

| member | source | states |
|---|---|---|
| Text.ContainsIffOccurs | EntityAnalysisHelper.cs:24-27 | The ordinal `Contains` scan answers true exactly when the pattern occurs as a substring at some position. |
| Text.LastIndexOfSpec | EntityAnalysisHelper.cs:43 | `LastIndexOf('.')` is -1 exactly when there is no dot. Otherwise it is the position of a dot with no dot after it. |
| TypeNames.GetClassName | EntityAnalysisHelper.cs:41-47 | The class name is a tail of the qualified name. When it differs from the input it is non-empty and holds no dot. |
| TypeNames.GetClassNameSpec | EntityAnalysisHelper.cs:41-47 | The result is always a suffix of the input. It equals the input exactly when there is no dot or the last character is a dot. Otherwise it is non-empty, dot-free, and preceded by a dot in the input. |
| TypeNames.GetClassNameIdempotent | EntityAnalysisHelper.cs:41-47 | Taking the class name twice gives the same result as taking it once. |
| TypeNames.GetClassNameOfQualified | EntityAnalysisHelper.cs:41-47 | For `namespace.Name` with a non-empty, dot-free `Name`, the class name is `Name`. |
| TypeNames.ExtractGenericType | EntityAnalysisHelper.cs:50-62 | The result is never longer than the input. When it differs from the input, the input holds both `<` and `>`, and the result is strictly shorter and holds no `>`. |
| TypeNames.ExtractGenericTypeSpec | EntityAnalysisHelper.cs:50-62 | With no match of `\<([^>]*)\>` the input comes back unchanged. With a match, the result is the capture of the leftmost match, holds no `>`, and is shorter than the input. |
| TypeNames.ExtractGenericTypeOfMatch | EntityAnalysisHelper.cs:50-62 | Given the leftmost match `s[i..j]`, the result is exactly `s[i+1..j]`; the leftmost match is unique (`LeftmostMatchUnique`). |
| TypeNames.ExtractGenericTypeIdempotent | EntityAnalysisHelper.cs:50-62 | Normalising a normalised name changes nothing. |
| TypeNames.ExtractGenericTypeNested | EntityAnalysisHelper.cs:52 | `A<B<C>>` normalises to `B<C`: the first `>` closes the match. |
| TypeNames.ExtractGenericTypeBackingField | EntityAnalysisHelper.cs:33 | A backing field name `<P>k__BackingField` normalises to the property name `P`. |
| TypeNames.ExtractGenericTypeOfPlainName | EntityAnalysisHelper.cs:61 | A name without `<` is returned unchanged. |
| Entities.IsModelType | EntityAnalysisHelper.cs:24-27 | A type is kept if and only if `Models` occurs in its full name as a substring and none of the three excluded markers does. |
| Entities.DescriptorsFollowFields | EntityAnalysisHelper.cs:29-33 | There is one descriptor per field, in field order. Each is `ExtractGenericType(field type name) + " " + ExtractGenericType(field name)`. |
| Entities.SelectEntities | EntityAnalysisHelper.cs:17-38 | The extracted map never holds a key twice. |
| Entities.LastIncludedTypeWins | EntityAnalysisHelper.cs:19-35 | Under a simple name, the map holds the descriptors of the last kept type with that simple name. |
| Entities.EntityOrderIsFirstOccurrence | EntityAnalysisHelper.cs:19-35 | Entities are enumerated in the order their simple names first occur among the kept types. |
| Entities.EntityKeysAreIncludedNames | EntityAnalysisHelper.cs:19-35 | A key is present if and only if some kept type has that simple name. |
| Entities.GetModelTypesAndMembers | EntityAnalysisHelper.cs:14-39 | No simple name is stored twice, and the entities are enumerated in the order their simple names first occur among the model types. |
| Entities.ModelEntities | EntityAnalysisHelper.cs:14-39 | With the fixed model filter, the last model type with a given simple name supplies the descriptors stored under it. For every input, including a module with no model type, a key is present if and only if some model type has that simple name. |
| Dictionaries.Put | EntityAnalysisHelper.cs:34 | An indexer assignment adds at most one entry, and reading the assigned key afterwards gives the assigned value. |
| Dictionaries.PutKeys | EntityAnalysisHelper.cs:34 | An indexer assignment appends a new key and keeps an existing key in its place: the key list is unchanged when the key was present, and gains it at the end otherwise. |
| Dictionaries.PutThenGet | EntityAnalysisHelper.cs:34 | After `d[k] = v`, reading `k` gives `v`; every other key reads as before. |
| Dictionaries.PutAllKeys | MainController.cs:84-89 | After a sequence of assignments, the keys are the assigned keys at their first occurrence. |
| Dictionaries.PutAllLastWins | MainController.cs:84-89 | After a sequence of assignments, a key holds the value of its last assignment. |
| DataSets.SplitAtFirstSpace | EntityAnalysisHelper.cs:76 | `Split(' ', 2)` gives one part exactly when there is no space. Otherwise it gives the space-free text before the first space and the rest, joined back by that space. |
| DataSets.SplitDescriptor | EntityAnalysisHelper.cs:76-79 | Splitting `typeName + " " + memberName`, for a space-free type name, gives back both parts. |
| DataSets.ColumnFor | EntityAnalysisHelper.cs:76-87 | A typed column's type is one the lookup accepts, and it holds no space, being the text before the first space. An `object` column's name ends in the closing parenthesis of the type annotation. |
| DataSets.ColumnForDescriptor | EntityAnalysisHelper.cs:76-88 | A descriptor's column is named by the member name and typed by the type name when the lookup succeeds. Otherwise it is an `object` column named `member (SimpleTypeName)`. |
| DataSets.ColumnForBareName | EntityAnalysisHelper.cs:77-86 | A member without a space is both the column name and the type name looked up. |
| DataSets.FallbackColumns | EntityAnalysisHelper.cs:80-86 | A column is `object` exactly when the lookup of the type part fails, and then its name ends in ` (SimpleTypeName)`. Otherwise the column carries the type part. |
| DataSets.UnresolvedQualifiedColumn | EntityAnalysisHelper.cs:80-86 | An unknown `namespace.Name` type gives the column `member (Name)` of type `object`. |
| DataSets.ColumnsOf | EntityAnalysisHelper.cs:74-89 | There is one column per descriptor, in descriptor order, each the column of that descriptor. |
| DataSets.ConvertToDataSet | EntityAnalysisHelper.cs:65-96 | There is one table per entity, in enumeration order. Each table is named by the entity's key and holds that entity's columns. |
| EntityGraph.AddVertexIdempotent | EntityAnalysisHelper.cs:132 | Re-adding a vertex changes nothing; adding a new one grows the vertex set by one. |
| EntityGraph.AddMembersVertices | EntityAnalysisHelper.cs:134-140 | The member loop adds exactly the non-null members as vertices. |
| EntityGraph.AddMembersEdges | EntityAnalysisHelper.cs:134-140 | The member loop appends one parent-to-member edge per non-null member, in member order. |
| EntityGraph.AddMembersWellFormed | EntityAnalysisHelper.cs:134-140 | Every edge the member loop adds joins two vertices. |
| EntityGraph.AddEntitiesVertices | EntityAnalysisHelper.cs:129-141 | The entity loop adds exactly the keys and the non-null members as vertices. |
| EntityGraph.AddEntitiesEdges | EntityAnalysisHelper.cs:129-141 | The entity loop appends the edges entity by entity. |
| EntityGraph.AddEntitiesWellFormed | EntityAnalysisHelper.cs:129-141 | Every edge joins two vertices. |
| EntityGraph.CreateGraph | EntityAnalysisHelper.cs:125-144 | The vertices are exactly the keys plus the non-null members, a member shared by several entities being one vertex. The edges are the entity-to-member edges in order. Every edge joins two vertices. |
| CallGraph.CallsIn | MainController.cs:61-68 | A scan's direct calls all name the scanned method as caller, and there are never more of them than instructions. |
| CallGraph.CallsInMembership | MainController.cs:61-68 | A report is among a body's direct calls exactly when some instruction is a `call`/`callvirt` whose operand references the callee. There are never more reports than instructions. |
| CallGraph.AnalyzeMethod | MainController.cs:56-60 | A method already visited leaves the walk unchanged. Otherwise it ends up visited, the visited set only grows, and a method without a body is only marked visited. The walk terminates on cyclic call relations. |
| CallGraph.ScanCalls | MainController.cs:61-75 | Scanning a body only grows the visited set. |
| CallGraph.Descend | MainController.cs:69-73 | The recursion step only grows the visited set. A caller in the main assembly, or a callee that does not resolve, leaves the walk unchanged. Otherwise the resolved callee ends up visited. |
| CallGraph.AnalyzeMethodAppends | MainController.cs:52-76 | The walk only appends to the visit order and the reports. Each name is visited at most once, and the visited set is exactly the names in the visit order. |
| CallGraph.ScanCallsAppends | MainController.cs:61-75 | The same, for the scan of a body. |
| CallGraph.DescendAppends | MainController.cs:69-73 | The same, for the recursion step. |
| CallGraph.AnalyzeMethodCallers | MainController.cs:52-76 | Every report a walk adds names, as caller, a method that this walk newly visited. |
| CallGraph.ScanCallsCallers | MainController.cs:61-75 | Every report a scan adds is made by the scanned method or by a method the scan newly visited. |
| CallGraph.DescendCallers | MainController.cs:69-73 | Every report the recursion step adds is made by a method it newly visited. |
| CallGraph.ScanCallsOwnReports | MainController.cs:61-75 | The reports made by the scanned method are exactly the body's direct calls, in instruction order. |
| CallGraph.AnalyzeMethodOwnReports | MainController.cs:52-76 | Analysing an unvisited method prints its direct calls, in instruction order, as the reports naming it as caller. |
| CallGraph.ReportPrecedesDescent | MainController.cs:66-72 | A call's report is the first report the scan adds, before anything the recursion it triggers prints. |
| CallGraph.ScanCallsInMainAssembly | MainController.cs:69 | Scanning a main-assembly method adds its direct calls and changes nothing else. |
| CallGraph.AnalyzeMethodInMainAssembly | MainController.cs:52-76 | Analysing an unvisited main-assembly method marks it visited, prints its direct calls and analyses nothing else. |
| CallGraph.ScanCallsUnresolvedLeaves | MainController.cs:69-72 | When no call of the scanned instructions resolves, the scan visits nothing and only adds their direct calls. |
| CallGraph.ScanCallsVisitsResolvedCallees | MainController.cs:69-72 | Scanning a method outside the main assembly visits every callee that resolves. |
| CallGraph.AnalyzeMethodVisitsResolvedCallees | MainController.cs:52-76 | Analysing an unvisited method outside the main assembly visits every resolved callee of its body. |
| Controller.AnalyzeAssemblyPath | MainController.cs:43-50 | The report fails, with the null-dereference error, exactly when there is no entry point. Otherwise its first line names the entry point. |
| Controller.AnalyzeAssemblyPathReportsDirectCalls | MainController.cs:43-50 | The report fails exactly when there is no entry point. Otherwise it is the entry-point line followed by one line per direct call of the entry point, with no descent. |
| Controller.MethodNamesFollowMethods | MainController.cs:86-87 | There is one method name per method, in declaration order. |
| Controller.GetTypesAndMethods | MainController.cs:79-92 | The listing's keys are the types' full names, each once, in order of first occurrence. |
| Controller.GetTypesAndMethodsKeys | MainController.cs:79-92 | The listing has each type's full name once, in first-occurrence order. A name no type has is absent. |
| Controller.GetTypesAndMethodsLastWins | MainController.cs:79-92 | A repeated full name holds the method names of its last type. |
| Scenarios.InvoiceIsModel | EntityAnalysisHelper.cs:24-27 | `Models.Invoice` passes the filter. |
| Scenarios.InvoiceContextIsNotModel | EntityAnalysisHelper.cs:27 | `Models.Context.InvoiceContext` is excluded by `Context`. |
| Scenarios.InvoiceModule | EntityAnalysisHelper.cs:14-39 | From the entity and its context type, the single entry `Invoice -> [System.Decimal Amount, System.String Currency]` is extracted. |
| Scenarios.InvoiceTable | EntityAnalysisHelper.cs:65-96 | That entry's table is `Invoice` with the typed columns `Amount` and `Currency`. |
| Scenarios.InvoiceGraph | EntityAnalysisHelper.cs:125-144 | The graph of that entry has three vertices and two edges from `Invoice`. |
| Scenarios.MutualRecursionTerminates | MainController.cs:52-76 | Two mutually calling methods outside the main assembly are each analysed once, and each call is reported once. |
| Scenarios.MainAssemblyDoesNotDescend | MainController.cs:69 | The same methods inside the main assembly: one report, no descent. |

## Left out

- `ProcessSupervisor.cs` is not part of this model. It enumerates processes, reads module base addresses and subscribes to kernel/runtime tracing events with callbacks, threads and sleeps.
- `RenderGraphToImage` and `DisplayGraph` are left out: they start an external renderer and open a window.
- `CreateGraphFromDataSet` is left out: it is unused by the program and reads data rows the tables never receive.
- `AnalyzeAssembly` and `Run` are left out: they are console listing and orchestration around a fixed path.
- `ToGraph` and `ToGraphviz` are left out: they are graph-library conversions that `Run` applies to the data set.
- Reading an assembly from a path is outside the model, and so are its failures (missing file, bad image). Each analysis receives the metadata it reads.
- A `Resolve()` that throws, because a referenced assembly cannot be found, is not modelled. The resolver returns a definition or nothing.
- `Type.GetType` is a parameter predicate; the type it returns is modelled by the name looked up. Its exceptions for malformed names are not modelled.
- DataSets.ConvertToDataSet: takes non-null descriptors. A null descriptor would throw at the split in the source, and the extraction never produces one.
- DataSets.ConvertToDataSet: does not model the duplicate-column exception the data table raises when two descriptors of one entity give the same column name. Its contract states what the table holds when no such exception occurs.
- DataSets.ConvertToDataSet: does not model the data table renaming an empty column name to a default name (`Column1`, `Column2`, …). A field named `<>…` normalises to the empty string, so its descriptor is `"T "` and the model gives it a column named "" where the data table would use a default name.
- DataSets.ColumnFor: its own contract states only the shape of the column: an accepted, space-free type or an annotated name. The full descriptor-to-column mapping is stated by the lemmas `DataSets.ColumnForDescriptor`, `DataSets.ColumnForBareName` and `DataSets.FallbackColumns`, so that proofs about lists of columns do not carry it.
- EntityGraph.CreateGraph: edges are modelled in insertion order. The graph library enumerates them per source vertex, in the order the vertices were added. That is the same order entity by entity provided no member string equals the key of a later entity; this always holds for extracted descriptors, which contain a space, while the names of types defined in a module do not. Otherwise a key's edges come where that key was first added as a vertex, which the model does not reproduce. Parallel edges are kept, as the library's default allows.
- Controller.AnalyzeAssemblyPath: an absent entry point is the error value `NullEntryPoint` standing for the null dereference. The console is modelled as the list of printed lines.
- CallGraph.AnalyzeMethod: the recursion depth is unbounded in the model. A long chain of calls outside the main assembly would overflow the call stack of the recursive source method; that failure is not modelled.
- CallGraph.AnalyzeMethod: a method's identity in the visited set is its full name, as in the source. Two distinct definitions with one full name are treated as one.
