/** The two analyses of MainController that work on a module's metadata:
    the call report started at the entry point (AnalyzeAssemblyPath) and the
    table of types and their methods (GetTypesAndMethods). */
module Controller {
  import opened Wrappers
  import opened Dictionaries
  import opened Metadata
  import opened CallGraph

  /** What reading an assembly yields for the call report: its entry point,
      absent for a library, and the resolver for method references. */
  datatype Program = Program(entryPoint: Option<MethodDef>, resolve: Resolver)

  /** The error reading the entry point's name raises when there is none. */
  const NullEntryPoint: string := "NullReferenceException: the assembly has no entry point"

  function EntryPointLine(entry: MethodDef): string
  {
    "Entry point: " + entry.fullName
  }

  function ReportLine(rep: Report): string
  {
    "Method " + rep.caller + " calls " + rep.callee
  }

  /** The console lines of a sequence of reports, one per report, in order. */
  function ReportLines(reports: seq<Report>): (lines: seq<string>)
    ensures |lines| == |reports|
    decreases |reports|
  {
    if |reports| == 0 then [] else [ReportLine(reports[0])] + ReportLines(reports[1..])
  }

  /** AnalyzeAssemblyPath: print the entry point, then walk from it with an
      empty visited set, taking the entry point's own assembly as the main
      assembly. */
  function AnalyzeAssemblyPath(p: Program): (r: Result<seq<string>, string>)
    ensures r.Failure? <==> p.entryPoint.None?
    ensures r.Failure? ==> r.error == NullEntryPoint
    ensures r.Success? ==> |r.value| >= 1 && r.value[0] == EntryPointLine(p.entryPoint.value)
  {
    match p.entryPoint
    case None => Failure(NullEntryPoint)
    case Some(entry) =>
      var walk := AnalyzeMethod(p.resolve, entry.assembly, entry, StartWalk);
      Success([EntryPointLine(entry)] + ReportLines(walk.reports))
  }

  /** The report fails exactly when there is no entry point. Otherwise, since
      the entry point belongs to the main assembly, the walk never descends:
      it prints the entry line followed by the entry point's direct calls. */
  lemma AnalyzeAssemblyPathReportsDirectCalls(p: Program)
    ensures AnalyzeAssemblyPath(p).Failure? <==> p.entryPoint.None?
    ensures p.entryPoint.Some? ==>
              AnalyzeAssemblyPath(p) == Success([EntryPointLine(p.entryPoint.value)] + ReportLines(DirectCalls(p.entryPoint.value)))
  {
    if p.entryPoint.Some? {
      var entry := p.entryPoint.value;
      AnalyzeMethodInMainAssembly(p.resolve, entry.assembly, entry, StartWalk);
      assert StartWalk.reports + DirectCalls(entry) == DirectCalls(entry);
    }
  }

  /** The simple names of a list of methods, in declaration order. */
  function MethodNames(methods: seq<MethodDef>): seq<string>
    decreases |methods|
  {
    if |methods| == 0 then [] else [methods[0].name] + MethodNames(methods[1..])
  }

  lemma {:induction false} MethodNamesFollowMethods(methods: seq<MethodDef>)
    ensures |MethodNames(methods)| == |methods|
    ensures forall i :: 0 <= i < |methods| ==> MethodNames(methods)[i] == methods[i].name
    decreases |methods|
  {
    if |methods| > 0 {
      MethodNamesFollowMethods(methods[1..]);
    }
  }

  /** The assignment each type contributes: full name to method names. */
  function TypeEntries(types: seq<TypeDef>): (ps: seq<Entry<string, seq<string>>>)
    ensures |ps| == |types|
    decreases |types|
  {
    if |types| == 0 then [] else [Entry(types[0].fullName, MethodNames(types[0].methods))] + TypeEntries(types[1..])
  }

  lemma {:induction false} TypeEntriesFollowTypes(types: seq<TypeDef>)
    ensures forall i :: 0 <= i < |types| ==>
              TypeEntries(types)[i] == Entry(types[i].fullName, MethodNames(types[i].methods))
    decreases |types|
  {
    if |types| > 0 {
      TypeEntriesFollowTypes(types[1..]);
    }
  }

  /** GetTypesAndMethods: for each type in order, assign its method names
      under its full name. */
  function GetTypesAndMethods(types: seq<TypeDef>): (r: Dict<string, seq<string>>)
    ensures Keys(r) == Dedup(FullNames(types))
  {
    var ps := TypeEntries(types);
    TypeEntriesFollowTypes(types);
    assert Keys(ps) == FullNames(types);
    PutAllKeys(ps);
    PutAll(ps)
  }

  /** The full names of the types, in order. */
  function FullNames(types: seq<TypeDef>): (names: seq<string>)
    ensures |names| == |types|
    ensures forall i :: 0 <= i < |types| ==> names[i] == types[i].fullName
    decreases |types|
  {
    if |types| == 0 then [] else [types[0].fullName] + FullNames(types[1..])
  }

  /** The table lists every type's full name once, in order of first
      occurrence, and a name no type has is absent. */
  lemma GetTypesAndMethodsKeys(types: seq<TypeDef>, k: string)
    ensures Keys(GetTypesAndMethods(types)) == Dedup(FullNames(types))
    ensures Get(GetTypesAndMethods(types), k).None? <==> forall j :: 0 <= j < |types| ==> types[j].fullName != k
  {
    var ps := TypeEntries(types);
    TypeEntriesFollowTypes(types);
    assert Keys(ps) == FullNames(types);
    PutAllKeys(ps);
    PutAllMisses(ps, k);
  }

  /** The last type with a given full name supplies the method names stored
      under it, in declaration order: a repeated full name overwrites. */
  lemma GetTypesAndMethodsLastWins(types: seq<TypeDef>, i: int)
    requires 0 <= i < |types|
    requires forall j :: i < j < |types| ==> types[j].fullName != types[i].fullName
    ensures Get(GetTypesAndMethods(types), types[i].fullName) == Some(MethodNames(types[i].methods))
  {
    var ps := TypeEntries(types);
    TypeEntriesFollowTypes(types);
    PutAllLastWins(ps, i);
  }
}
