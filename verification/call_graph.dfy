/** The call-graph walk (MainController.AnalyzeMethod): a depth-first
    traversal over method bodies that reports every call instruction and
    descends into a callee only while the method being scanned lies outside
    the main assembly. */
module CallGraph {
  import opened Wrappers
  import opened Dictionaries
  import opened Metadata

  /** One printed line "Method <caller> calls <callee>", as data. */
  datatype Report = Report(caller: string, callee: string)

  /** The state the walk threads through: the visited full names (the shared
      hash set), the same names in the order they were added, and the
      reports printed so far. */
  datatype Walk = Walk(visited: set<string>, order: seq<string>, reports: seq<Report>)

  /** The walk before anything is visited. */
  const StartWalk: Walk := Walk({}, [], [])

  /** Resolving a method reference, keyed by the reference's full name; a
      missing key is a reference that resolves to null. */
  type Resolver = Dict<string, MethodDef>

  /** The method a call instruction names: present exactly for `call` and
      `callvirt` whose operand is a method reference. */
  function CallTarget(ins: Instruction): Option<MethodRef>
  {
    if (ins.opCode == Call || ins.opCode == Callvirt) && ins.operand.MethodOperand? then
      Some(ins.operand.target)
    else
      None
  }

  /** The reports a scan of `instructions` on behalf of `caller` prints, in
      instruction order. */
  function CallsIn(caller: string, instructions: seq<Instruction>): (reports: seq<Report>)
    ensures |reports| <= |instructions|
    ensures forall i :: 0 <= i < |reports| ==> reports[i].caller == caller
    decreases |instructions|
  {
    if |instructions| == 0 then []
    else
      var here := match CallTarget(instructions[0])
        case None => []
        case Some(callee) => [Report(caller, callee.fullName)];
      here + CallsIn(caller, instructions[1..])
  }

  /** An instruction calls `callee` when it is a `call` or `callvirt` whose
      operand is a reference to `callee`. */
  ghost predicate CallsTo(ins: Instruction, callee: string)
  {
    (ins.opCode == Call || ins.opCode == Callvirt) && ins.operand == MethodOperand(MethodRef(callee))
  }

  /** A report is among the direct calls of a body exactly when it names the
      scanned method as caller and some instruction of the body calls its
      callee; there are never more reports than instructions. */
  lemma {:induction false} CallsInMembership(caller: string, instructions: seq<Instruction>, rep: Report)
    ensures |CallsIn(caller, instructions)| <= |instructions|
    ensures rep in CallsIn(caller, instructions) <==>
              rep.caller == caller && exists j :: 0 <= j < |instructions| && CallsTo(instructions[j], rep.callee)
    decreases |instructions|
  {
    if |instructions| > 0 {
      var rest := instructions[1..];
      CallsInMembership(caller, rest, rep);
      if rep.caller == caller && exists j :: 0 <= j < |instructions| && CallsTo(instructions[j], rep.callee) {
        var j :| 0 <= j < |instructions| && CallsTo(instructions[j], rep.callee);
        if j > 0 {
          assert rest[j - 1] == instructions[j];
        }
      }
      if rep in CallsIn(caller, rest) {
        var j :| 0 <= j < |rest| && CallsTo(rest[j], rep.callee);
        assert instructions[j + 1] == rest[j];
      }
    }
  }

  /** The direct calls of a method; a method without a body makes none. */
  function DirectCalls(m: MethodDef): seq<Report>
  {
    match m.body
    case None => []
    case Some(instructions) => CallsIn(m.fullName, instructions)
  }

  /** The reports of `reports` made by `caller`, in order. */
  function ByCaller(reports: seq<Report>, caller: string): seq<Report>
    decreases |reports|
  {
    if |reports| == 0 then []
    else (if reports[0].caller == caller then [reports[0]] else []) + ByCaller(reports[1..], caller)
  }

  /** The full names of the definitions the resolver can return: every
      method the walk can reach besides the one it starts from. */
  function Targets(resolve: Resolver): set<string>
    decreases |resolve|
  {
    if |resolve| == 0 then {} else {resolve[0].value.fullName} + Targets(resolve[1..])
  }

  /** A successful resolution yields a definition whose name is a target. */
  lemma {:induction false} ResolvedIsTarget(resolve: Resolver, k: string)
    requires Get(resolve, k).Some?
    ensures Get(resolve, k).value.fullName in Targets(resolve)
    decreases |resolve|
  {
    if resolve[0].key != k {
      ResolvedIsTarget(resolve[1..], k);
    }
  }

  lemma {:induction false} SubsetCardinality<T>(x: set<T>, y: set<T>)
    requires x <= y
    ensures |x| <= |y|
    decreases |x|
  {
    if x != {} {
      var e :| e in x;
      SubsetCardinality(x - {e}, y - {e});
    }
  }

  /** Visiting more names never enlarges the unvisited part of a set. */
  lemma UnvisitedShrinks(all: set<string>, visited: set<string>, visited': set<string>)
    requires visited <= visited'
    ensures |all - visited'| <= |all - visited|
  {
    SubsetCardinality(all - visited', all - visited);
  }

  /** Marking an unvisited method visited removes it from the unvisited
      names. */
  lemma MarkingDecreases(all: set<string>, visited: set<string>, name: string)
    requires name !in visited
    ensures |all - (visited + {name})| < |(all + {name}) - visited|
  {
    var rest := all - (visited + {name});
    assert (all + {name}) - visited == rest + {name};
  }

  /** AnalyzeMethod: an already visited method is skipped; otherwise its
      name is marked visited before its body, if any, is scanned. */
  function AnalyzeMethod(resolve: Resolver, main: AssemblyId, m: MethodDef, w: Walk): (r: Walk)
    ensures w.visited <= r.visited
    ensures m.fullName in r.visited
    ensures m.fullName in w.visited ==> r == w
    ensures m.fullName !in w.visited && m.body.None? ==>
              r == Walk(w.visited + {m.fullName}, w.order + [m.fullName], w.reports)
    decreases |(Targets(resolve) + {m.fullName}) - w.visited|, 0, 0
  {
    if m.fullName in w.visited then w
    else
      var marked := Walk(w.visited + {m.fullName}, w.order + [m.fullName], w.reports);
      match m.body
      case None => marked
      case Some(instructions) =>
        MarkingDecreases(Targets(resolve), w.visited, m.fullName);
        ScanCalls(resolve, main, m, instructions, marked)
  }

  /** The loop over the instructions of `m`'s body: each call instruction is
      reported, then, when `m` lies outside the main assembly and the callee
      resolves, the callee is analysed with the same visited set. */
  function ScanCalls(resolve: Resolver, main: AssemblyId, m: MethodDef, instructions: seq<Instruction>, w: Walk): (r: Walk)
    requires m.fullName in w.visited
    ensures w.visited <= r.visited
    decreases |Targets(resolve) - w.visited|, 1, |instructions|
  {
    if |instructions| == 0 then w
    else
      match CallTarget(instructions[0])
      case None => ScanCalls(resolve, main, m, instructions[1..], w)
      case Some(callee) =>
        var reported := w.(reports := w.reports + [Report(m.fullName, callee.fullName)]);
        var after := Descend(resolve, main, m, callee, reported);
        UnvisitedShrinks(Targets(resolve), w.visited, after.visited);
        ScanCalls(resolve, main, m, instructions[1..], after)
  }

  /** The recursion step after a report: analyse the resolved callee when
      the scanned method is outside the main assembly; an unresolved callee
      is a leaf. */
  function Descend(resolve: Resolver, main: AssemblyId, m: MethodDef, callee: MethodRef, w: Walk): (r: Walk)
    ensures w.visited <= r.visited
    ensures m.assembly == main || Get(resolve, callee.fullName).None? ==> r == w
    ensures m.assembly != main && Get(resolve, callee.fullName).Some? ==>
              Get(resolve, callee.fullName).value.fullName in r.visited
    decreases |Targets(resolve) - w.visited|, 0, 1
  {
    if m.assembly != main && Get(resolve, callee.fullName).Some? then
      var target := Get(resolve, callee.fullName).value;
      ResolvedIsTarget(resolve, callee.fullName);
      assert Targets(resolve) + {target.fullName} == Targets(resolve);
      AnalyzeMethod(resolve, main, target, w)
    else
      w
  }

  /** Every full name appears at most once in `order`, and the visited set
      holds exactly the names in `order`: each method is analysed at most
      once. */
  ghost predicate Recorded(w: Walk)
  {
    && (forall i, j :: 0 <= i < j < |w.order| ==> w.order[i] != w.order[j])
    && (forall x :: x in w.visited <==> x in w.order)
  }

  /** Marking a new name visited appends it to the order once. */
  lemma MarkingKeepsRecorded(w: Walk, name: string)
    requires name !in w.visited
    ensures Recorded(w) ==> Recorded(Walk(w.visited + {name}, w.order + [name], w.reports))
  {
  }

  /** The walk only appends: names to `order`, lines to `reports`; and it
      keeps `Recorded`. */
  lemma {:induction false} AnalyzeMethodAppends(resolve: Resolver, main: AssemblyId, m: MethodDef, w: Walk)
    ensures var r := AnalyzeMethod(resolve, main, m, w);
            w.order <= r.order && w.reports <= r.reports && (Recorded(w) ==> Recorded(r))
    decreases |(Targets(resolve) + {m.fullName}) - w.visited|, 0, 0
  {
    if m.fullName !in w.visited {
      var marked := Walk(w.visited + {m.fullName}, w.order + [m.fullName], w.reports);
      MarkingKeepsRecorded(w, m.fullName);
      if m.body.Some? {
        MarkingDecreases(Targets(resolve), w.visited, m.fullName);
        ScanCallsAppends(resolve, main, m, m.body.value, marked);
      }
    }
  }

  lemma {:induction false} ScanCallsAppends(resolve: Resolver, main: AssemblyId, m: MethodDef, instructions: seq<Instruction>, w: Walk)
    requires m.fullName in w.visited
    ensures var r := ScanCalls(resolve, main, m, instructions, w);
            w.order <= r.order && w.reports <= r.reports && (Recorded(w) ==> Recorded(r))
    decreases |Targets(resolve) - w.visited|, 1, |instructions|
  {
    if |instructions| > 0 {
      match CallTarget(instructions[0])
      case None =>
        ScanCallsAppends(resolve, main, m, instructions[1..], w);
      case Some(callee) =>
        var reported := w.(reports := w.reports + [Report(m.fullName, callee.fullName)]);
        var after := Descend(resolve, main, m, callee, reported);
        DescendAppends(resolve, main, m, callee, reported);
        UnvisitedShrinks(Targets(resolve), w.visited, after.visited);
        ScanCallsAppends(resolve, main, m, instructions[1..], after);
    }
  }

  lemma {:induction false} DescendAppends(resolve: Resolver, main: AssemblyId, m: MethodDef, callee: MethodRef, w: Walk)
    ensures var r := Descend(resolve, main, m, callee, w);
            w.order <= r.order && w.reports <= r.reports && (Recorded(w) ==> Recorded(r))
    decreases |Targets(resolve) - w.visited|, 0, 1
  {
    if m.assembly != main && Get(resolve, callee.fullName).Some? {
      var target := Get(resolve, callee.fullName).value;
      ResolvedIsTarget(resolve, callee.fullName);
      assert Targets(resolve) + {target.fullName} == Targets(resolve);
      AnalyzeMethodAppends(resolve, main, target, w);
    }
  }

  /** Every report a walk step adds names as caller a method that the step
      newly visited. */
  ghost predicate CallersNewlyVisited(w: Walk, r: Walk)
  {
    && w.reports <= r.reports
    && forall i :: |w.reports| <= i < |r.reports| ==>
         r.reports[i].caller in r.visited && r.reports[i].caller !in w.visited
  }

  /** The reports a scan of `m`'s body adds are made by `m` itself or by a
      method the scan newly visited. */
  ghost predicate CallersFromScan(m: MethodDef, w: Walk, r: Walk)
  {
    && w.reports <= r.reports
    && forall i :: |w.reports| <= i < |r.reports| ==>
         r.reports[i].caller == m.fullName || (r.reports[i].caller in r.visited && r.reports[i].caller !in w.visited)
  }

  lemma {:induction false} AnalyzeMethodCallers(resolve: Resolver, main: AssemblyId, m: MethodDef, w: Walk)
    ensures CallersNewlyVisited(w, AnalyzeMethod(resolve, main, m, w))
    decreases |(Targets(resolve) + {m.fullName}) - w.visited|, 0, 0
  {
    if m.fullName !in w.visited && m.body.Some? {
      var marked := Walk(w.visited + {m.fullName}, w.order + [m.fullName], w.reports);
      MarkingDecreases(Targets(resolve), w.visited, m.fullName);
      ScanCallsCallers(resolve, main, m, m.body.value, marked);
    }
  }

  lemma {:induction false} ScanCallsCallers(resolve: Resolver, main: AssemblyId, m: MethodDef, instructions: seq<Instruction>, w: Walk)
    requires m.fullName in w.visited
    ensures CallersFromScan(m, w, ScanCalls(resolve, main, m, instructions, w))
    decreases |Targets(resolve) - w.visited|, 1, |instructions|
  {
    if |instructions| > 0 {
      match CallTarget(instructions[0])
      case None =>
        ScanCallsCallers(resolve, main, m, instructions[1..], w);
      case Some(callee) =>
        var reported := w.(reports := w.reports + [Report(m.fullName, callee.fullName)]);
        var after := Descend(resolve, main, m, callee, reported);
        var r := ScanCalls(resolve, main, m, instructions[1..], after);
        DescendCallers(resolve, main, m, callee, reported);
        UnvisitedShrinks(Targets(resolve), w.visited, after.visited);
        ScanCallsCallers(resolve, main, m, instructions[1..], after);
        forall i | |w.reports| <= i < |r.reports|
          ensures r.reports[i].caller == m.fullName || (r.reports[i].caller in r.visited && r.reports[i].caller !in w.visited)
        {
          if i < |reported.reports| {
            assert r.reports[i] == reported.reports[i];
          } else if i < |after.reports| {
            assert r.reports[i] == after.reports[i];
          }
        }
    }
  }

  lemma {:induction false} DescendCallers(resolve: Resolver, main: AssemblyId, m: MethodDef, callee: MethodRef, w: Walk)
    ensures CallersNewlyVisited(w, Descend(resolve, main, m, callee, w))
    decreases |Targets(resolve) - w.visited|, 0, 1
  {
    if m.assembly != main && Get(resolve, callee.fullName).Some? {
      var target := Get(resolve, callee.fullName).value;
      ResolvedIsTarget(resolve, callee.fullName);
      assert Targets(resolve) + {target.fullName} == Targets(resolve);
      AnalyzeMethodCallers(resolve, main, target, w);
    }
  }

  lemma {:induction false} ByCallerConcat(a: seq<Report>, b: seq<Report>, caller: string)
    ensures ByCaller(a + b, caller) == ByCaller(a, caller) + ByCaller(b, caller)
    decreases |a|
  {
    if |a| > 0 {
      assert (a + b)[1..] == a[1..] + b;
      ByCallerConcat(a[1..], b, caller);
    } else {
      assert a + b == b;
    }
  }

  lemma {:induction false} ByCallerOthers(a: seq<Report>, caller: string)
    requires forall i :: 0 <= i < |a| ==> a[i].caller != caller
    ensures ByCaller(a, caller) == []
    decreases |a|
  {
    if |a| > 0 {
      ByCallerOthers(a[1..], caller);
    }
  }

  /** Scanning `m`'s body prints, among all its reports, exactly the direct
      calls of the scanned instructions with `m` as caller, in instruction
      order; the reports printed by the methods it descends into have other
      callers. */
  lemma {:induction false} ScanCallsOwnReports(resolve: Resolver, main: AssemblyId, m: MethodDef, instructions: seq<Instruction>, w: Walk)
    requires m.fullName in w.visited
    ensures var r := ScanCalls(resolve, main, m, instructions, w);
            w.reports <= r.reports && ByCaller(r.reports[|w.reports|..], m.fullName) == CallsIn(m.fullName, instructions)
    decreases |instructions|
  {
    ScanCallsAppends(resolve, main, m, instructions, w);
    var r := ScanCalls(resolve, main, m, instructions, w);
    if |instructions| == 0 {
      assert r.reports[|w.reports|..] == [];
    } else {
      match CallTarget(instructions[0])
      case None =>
        ScanCallsOwnReports(resolve, main, m, instructions[1..], w);
        assert CallsIn(m.fullName, instructions) == [] + CallsIn(m.fullName, instructions[1..]);
      case Some(callee) =>
        var here := [Report(m.fullName, callee.fullName)];
        var reported := w.(reports := w.reports + here);
        var after := Descend(resolve, main, m, callee, reported);
        DescendCallers(resolve, main, m, callee, reported);
        ScanCallsOwnReports(resolve, main, m, instructions[1..], after);
        var nested := after.reports[|reported.reports|..];
        var rest := r.reports[|after.reports|..];
        assert r.reports[|w.reports|..] == here + nested + rest;
        forall i | 0 <= i < |nested|
          ensures nested[i].caller != m.fullName
        {
          assert nested[i] == after.reports[|reported.reports| + i];
        }
        ByCallerOthers(nested, m.fullName);
        ByCallerConcat(here + nested, rest, m.fullName);
        ByCallerConcat(here, nested, m.fullName);
    }
  }

  /** Analysing an unvisited method prints its direct calls with itself as
      caller, in instruction order, and no other report names it as
      caller. */
  lemma AnalyzeMethodOwnReports(resolve: Resolver, main: AssemblyId, m: MethodDef, w: Walk)
    requires m.fullName !in w.visited
    ensures var r := AnalyzeMethod(resolve, main, m, w);
            w.reports <= r.reports && ByCaller(r.reports[|w.reports|..], m.fullName) == DirectCalls(m)
  {
    var r := AnalyzeMethod(resolve, main, m, w);
    var marked := Walk(w.visited + {m.fullName}, w.order + [m.fullName], w.reports);
    if m.body.Some? {
      ScanCallsOwnReports(resolve, main, m, m.body.value, marked);
    } else {
      assert r.reports[|w.reports|..] == [];
    }
  }

  /** Scanning a method of the main assembly descends nowhere: it only adds
      the direct calls of the scanned instructions to the reports. */
  lemma {:induction false} ScanCallsInMainAssembly(resolve: Resolver, main: AssemblyId, m: MethodDef, instructions: seq<Instruction>, w: Walk)
    requires m.fullName in w.visited
    requires m.assembly == main
    ensures ScanCalls(resolve, main, m, instructions, w) == w.(reports := w.reports + CallsIn(m.fullName, instructions))
    decreases |instructions|
  {
    if |instructions| == 0 {
      assert w.reports + [] == w.reports;
    } else {
      var calls := CallsIn(m.fullName, instructions[1..]);
      match CallTarget(instructions[0])
      case None =>
        ScanCallsInMainAssembly(resolve, main, m, instructions[1..], w);
        assert CallsIn(m.fullName, instructions) == [] + calls;
      case Some(callee) =>
        var here := [Report(m.fullName, callee.fullName)];
        var reported := w.(reports := w.reports + here);
        ScanCallsInMainAssembly(resolve, main, m, instructions[1..], reported);
        assert w.reports + here + calls == w.reports + (here + calls);
    }
  }

  /** Analysing an unvisited method of the main assembly marks it visited,
      prints its direct calls and analyses nothing else. */
  lemma AnalyzeMethodInMainAssembly(resolve: Resolver, main: AssemblyId, m: MethodDef, w: Walk)
    requires m.fullName !in w.visited
    requires m.assembly == main
    ensures AnalyzeMethod(resolve, main, m, w) ==
              Walk(w.visited + {m.fullName}, w.order + [m.fullName], w.reports + DirectCalls(m))
  {
    var marked := Walk(w.visited + {m.fullName}, w.order + [m.fullName], w.reports);
    if m.body.Some? {
      ScanCallsInMainAssembly(resolve, main, m, m.body.value, marked);
    } else {
      assert w.reports + [] == w.reports;
    }
  }

  /** The definition a call instruction's callee resolves to, if the
      instruction is a call and the callee resolves. */
  function Resolution(resolve: Resolver, ins: Instruction): Option<MethodDef>
  {
    match CallTarget(ins)
    case None => None
    case Some(callee) => Get(resolve, callee.fullName)
  }

  /** Scanning a method outside the main assembly visits every callee that
      resolves. */
  lemma {:induction false} ScanCallsVisitsResolvedCallees(resolve: Resolver, main: AssemblyId, m: MethodDef, instructions: seq<Instruction>, w: Walk)
    requires m.fullName in w.visited
    requires m.assembly != main
    ensures forall j :: 0 <= j < |instructions| && Resolution(resolve, instructions[j]).Some? ==>
              Resolution(resolve, instructions[j]).value.fullName in ScanCalls(resolve, main, m, instructions, w).visited
    decreases |instructions|
  {
    if |instructions| > 0 {
      var r := ScanCalls(resolve, main, m, instructions, w);
      match CallTarget(instructions[0]) {
        case None =>
          ScanCallsVisitsResolvedCallees(resolve, main, m, instructions[1..], w);
        case Some(callee) =>
          var reported := w.(reports := w.reports + [Report(m.fullName, callee.fullName)]);
          var after := Descend(resolve, main, m, callee, reported);
          ScanCallsVisitsResolvedCallees(resolve, main, m, instructions[1..], after);
      }
      forall j | 0 <= j < |instructions| && Resolution(resolve, instructions[j]).Some?
        ensures Resolution(resolve, instructions[j]).value.fullName in r.visited
      {
        if j > 0 {
          assert instructions[1..][j - 1] == instructions[j];
        }
      }
    }
  }

  /** A callee that does not resolve is a leaf: scanning a body none of whose
      calls resolves visits nothing and only adds the direct calls of the
      scanned instructions to the reports. */
  lemma {:induction false} ScanCallsUnresolvedLeaves(resolve: Resolver, main: AssemblyId, m: MethodDef, instructions: seq<Instruction>, w: Walk)
    requires m.fullName in w.visited
    requires forall j :: 0 <= j < |instructions| ==> Resolution(resolve, instructions[j]).None?
    ensures ScanCalls(resolve, main, m, instructions, w) == w.(reports := w.reports + CallsIn(m.fullName, instructions))
    decreases |instructions|
  {
    if |instructions| == 0 {
      assert w.reports + [] == w.reports;
    } else {
      var rest := instructions[1..];
      assert forall j :: 0 <= j < |rest| ==> rest[j] == instructions[j + 1];
      assert Resolution(resolve, instructions[0]).None?;
      var calls := CallsIn(m.fullName, rest);
      match CallTarget(instructions[0])
      case None =>
        ScanCallsUnresolvedLeaves(resolve, main, m, rest, w);
        assert CallsIn(m.fullName, instructions) == [] + calls;
      case Some(callee) =>
        var here := [Report(m.fullName, callee.fullName)];
        var reported := w.(reports := w.reports + here);
        ScanCallsUnresolvedLeaves(resolve, main, m, rest, reported);
        assert w.reports + here + calls == w.reports + (here + calls);
    }
  }

  /** Analysing an unvisited method outside the main assembly visits every
      callee of its body that resolves. */
  lemma AnalyzeMethodVisitsResolvedCallees(resolve: Resolver, main: AssemblyId, m: MethodDef, w: Walk)
    requires m.fullName !in w.visited
    requires m.assembly != main
    requires m.body.Some?
    ensures forall j :: 0 <= j < |m.body.value| && Resolution(resolve, m.body.value[j]).Some? ==>
              Resolution(resolve, m.body.value[j]).value.fullName in AnalyzeMethod(resolve, main, m, w).visited
  {
    var marked := Walk(w.visited + {m.fullName}, w.order + [m.fullName], w.reports);
    ScanCallsVisitsResolvedCallees(resolve, main, m, m.body.value, marked);
  }

  /** Each report is printed before anything the recursion it may trigger
      prints: it is the first report the scan adds. */
  lemma ReportPrecedesDescent(resolve: Resolver, main: AssemblyId, m: MethodDef, instructions: seq<Instruction>, w: Walk)
    requires m.fullName in w.visited
    requires |instructions| > 0 && CallTarget(instructions[0]).Some?
    ensures var r := ScanCalls(resolve, main, m, instructions, w);
            |w.reports| < |r.reports| && r.reports[|w.reports|] == Report(m.fullName, CallTarget(instructions[0]).value.fullName)
  {
    var callee := CallTarget(instructions[0]).value;
    var reported := w.(reports := w.reports + [Report(m.fullName, callee.fullName)]);
    var after := Descend(resolve, main, m, callee, reported);
    DescendAppends(resolve, main, m, callee, reported);
    ScanCallsAppends(resolve, main, m, instructions[1..], after);
  }
}
