/** Conversion of types over any type table, with fuel: it returns exactly when the entries it gets to do not
    lead back to themselves. */
module Termination {
  import opened Wrappers
  import opened Element
  import opened Interned
  import opened TypeConversion
  import opened Acyclicity
  import Wire

  // ---------- Conversion with fuel ----------

  /** `None` when the fuel runs out: every interned entry that is followed costs one. */
  type Run<+T> = Option<ConvertResult<T>>

  function RunType(t: Wire.Type, pkg: Wire.Package, fuel: nat): Run<DamlType>
    requires Wire.AcyclicKinds(pkg.kinds)
    decreases fuel, t
  {
    match t
    case TypeUnset => Some(Failure(MissingRequiredField))
    case TypeVar(name, args) =>
      var v := ResolveString(name, pkg);
      if v.Failure? then Some(Failure(v.error)) else
        var ts :- RunTypes(args, pkg, fuel);
        Some(if ts.Failure? then Failure(ts.error) else Success(TVar(v.value, ts.value)))
    case TypeCon(id, args) =>
      var tycon := ConvertQualifiedId(id, pkg);
      if tycon.Failure? then Some(Failure(tycon.error)) else
        var ts :- RunTypes(args, pkg, fuel);
        Some(if ts.Failure? then Failure(ts.error) else Success(TTyCon(tycon.value, ts.value)))
    case TypeSyn(id, args) =>
      var tysyn := ConvertQualifiedId(id, pkg);
      if tysyn.Failure? then Some(Failure(tysyn.error)) else
        var ts :- RunTypes(args, pkg, fuel);
        Some(if ts.Failure? then Failure(ts.error) else Success(TSyn(tysyn.value, ts.value)))
    case TypeBuiltin(builtin, args) =>
      if builtin.UnknownBuiltinType? then Some(Failure(MissingRequiredField)) else
        var ts :- RunTypes(args, pkg, fuel);
        Some(if ts.Failure? then Failure(ts.error) else ApplyBuiltin(builtin, ts.value))
    case TypeForall(vars, body) =>
      var vs := ConvertTypeVars(vars, pkg);
      if vs.Failure? then Some(Failure(vs.error)) else
        var b :- RunType(body, pkg, fuel);
        Some(if b.Failure? then b else Success(TForall(vs.value, b.value)))
    case TypeStruct(fields) =>
      var fs :- RunFields(fields, pkg, fuel);
      Some(if fs.Failure? then Failure(fs.error) else Success(TStruct(fs.value)))
    case TypeNat(n) => Some(if 0 <= n <= 37 then Success(TNat(n)) else Failure(NatOutOfRange(n)))
    case TypeInterned(idx) =>
      if idx < 0 || |pkg.types| <= idx then Some(Failure(InternalError))
      else if fuel == 0 then None
      else RunType(pkg.types[idx], pkg, fuel - 1)
    case TypeApp => Some(Failure(UnsupportedFeatureUsed))
  }

  function RunTypes(ts: seq<Wire.Type>, pkg: Wire.Package, fuel: nat): Run<seq<DamlType>>
    requires Wire.AcyclicKinds(pkg.kinds)
    decreases fuel, ts
  {
    if ts == [] then Some(Success([])) else
      var head :- RunType(ts[0], pkg, fuel);
      if head.Failure? then Some(Failure(head.error)) else
        var tail :- RunTypes(ts[1..], pkg, fuel);
        Some(if tail.Failure? then tail else Success([head.value] + tail.value))
  }

  function RunFields(fs: seq<Wire.FieldWithType>, pkg: Wire.Package, fuel: nat): Run<seq<DamlField>>
    requires Wire.AcyclicKinds(pkg.kinds)
    decreases fuel, fs
  {
    if fs == [] then Some(Success([])) else
      assert fs[0].ty < fs[0];
      var name := ResolveString(fs[0].name, pkg);
      if name.Failure? then Some(Failure(name.error)) else
        var ty :- RunType(fs[0].ty, pkg, fuel);
        if ty.Failure? then Some(Failure(ty.error)) else
          var tail :- RunFields(fs[1..], pkg, fuel);
          Some(if tail.Failure? then tail else Success([DamlField(name.value, ty.value)] + tail.value))
  }

  ghost predicate Ends(t: Wire.Type, pkg: Wire.Package)
    requires Wire.AcyclicKinds(pkg.kinds)
  {
    exists fuel :: RunType(t, pkg, fuel).Some?
  }

  ghost predicate Converts(t: Wire.Type, pkg: Wire.Package)
    requires Wire.AcyclicKinds(pkg.kinds)
  {
    exists fuel :: RunType(t, pkg, fuel).Some? && RunType(t, pkg, fuel).value.Success?
  }

  // ---------- More fuel, same result ----------

  lemma {:induction false} MoreFuel(t: Wire.Type, pkg: Wire.Package, n: nat, m: nat)
    requires Wire.AcyclicKinds(pkg.kinds) && n <= m && RunType(t, pkg, n).Some?
    ensures RunType(t, pkg, m) == RunType(t, pkg, n)
    decreases n, t
  {
    hide ResolveString, ConvertQualifiedId, ConvertTypeVars, ApplyBuiltin;
    match t
    case TypeVar(name, args) => if ResolveString(name, pkg).Success? { MoreForAll(args, pkg, n, m); }
    case TypeCon(id, args) => if ConvertQualifiedId(id, pkg).Success? { MoreForAll(args, pkg, n, m); }
    case TypeSyn(id, args) => if ConvertQualifiedId(id, pkg).Success? { MoreForAll(args, pkg, n, m); }
    case TypeBuiltin(builtin, args) => if !builtin.UnknownBuiltinType? { MoreForAll(args, pkg, n, m); }
    case TypeForall(vars, body) => if ConvertTypeVars(vars, pkg).Success? { MoreFuel(body, pkg, n, m); }
    case TypeStruct(fields) => MoreForFields(fields, pkg, n, m);
    case TypeInterned(idx) => if 0 <= idx < |pkg.types| { MoreFuel(pkg.types[idx], pkg, n - 1, m - 1); }
    case _ =>
  }

  lemma {:induction false} MoreForAll(ts: seq<Wire.Type>, pkg: Wire.Package, n: nat, m: nat)
    requires Wire.AcyclicKinds(pkg.kinds) && n <= m && RunTypes(ts, pkg, n).Some?
    ensures RunTypes(ts, pkg, m) == RunTypes(ts, pkg, n)
    decreases n, ts
  {
    hide RunType;
    if ts != [] {
      MoreFuel(ts[0], pkg, n, m);
      if RunType(ts[0], pkg, n).value.Success? {
        MoreForAll(ts[1..], pkg, n, m);
      }
    }
  }

  lemma {:induction false} MoreForFields(fs: seq<Wire.FieldWithType>, pkg: Wire.Package, n: nat, m: nat)
    requires Wire.AcyclicKinds(pkg.kinds) && n <= m && RunFields(fs, pkg, n).Some?
    ensures RunFields(fs, pkg, m) == RunFields(fs, pkg, n)
    decreases n, fs
  {
    hide RunType, ResolveString;
    if fs != [] && ResolveString(fs[0].name, pkg).Success? {
      assert fs[0].ty < fs[0];
      MoreFuel(fs[0].ty, pkg, n, m);
      if RunType(fs[0].ty, pkg, n).value.Success? {
        MoreForFields(fs[1..], pkg, n, m);
      }
    }
  }

  /** Whatever fuel it returns with, it returns the same. */
  lemma OneResult(t: Wire.Type, pkg: Wire.Package, n: nat, m: nat)
    requires Wire.AcyclicKinds(pkg.kinds) && RunType(t, pkg, n).Some? && RunType(t, pkg, m).Some?
    ensures RunType(t, pkg, n) == RunType(t, pkg, m)
  {
    hide RunType;
    if n <= m {
      MoreFuel(t, pkg, n, m);
    } else {
      MoreFuel(t, pkg, m, n);
    }
  }

  // ---------- What a conversion gets to ----------

  /** The entries conversion of a type follows: those it comes to before an error. */
  ghost function Touches(t: Wire.Type, pkg: Wire.Package): set<int>
    requires Wire.AcyclicKinds(pkg.kinds)
    decreases t
  {
    match t
    case TypeVar(name, args) => if ResolveString(name, pkg).Success? then TouchesAll(args, pkg) else {}
    case TypeCon(id, args) => if ConvertQualifiedId(id, pkg).Success? then TouchesAll(args, pkg) else {}
    case TypeSyn(id, args) => if ConvertQualifiedId(id, pkg).Success? then TouchesAll(args, pkg) else {}
    case TypeBuiltin(builtin, args) => if builtin.UnknownBuiltinType? then {} else TouchesAll(args, pkg)
    case TypeForall(vars, body) => if ConvertTypeVars(vars, pkg).Success? then Touches(body, pkg) else {}
    case TypeStruct(fields) => TouchesFields(fields, pkg)
    case TypeInterned(idx) => if 0 <= idx < |pkg.types| then {idx} else {}
    case _ => {}
  }

  ghost function TouchesAll(ts: seq<Wire.Type>, pkg: Wire.Package): set<int>
    requires Wire.AcyclicKinds(pkg.kinds)
    decreases ts
  {
    if ts == [] then {} else
      Touches(ts[0], pkg) + if Converts(ts[0], pkg) then TouchesAll(ts[1..], pkg) else {}
  }

  ghost function TouchesFields(fs: seq<Wire.FieldWithType>, pkg: Wire.Package): set<int>
    requires Wire.AcyclicKinds(pkg.kinds)
    decreases fs
  {
    if fs == [] || ResolveString(fs[0].name, pkg).Failure? then {} else
      assert fs[0].ty < fs[0];
      Touches(fs[0].ty, pkg) + if Converts(fs[0].ty, pkg) then TouchesFields(fs[1..], pkg) else {}
  }

  /** Along which entries conversion goes from one entry to the next. */
  ghost function TouchGraph(pkg: Wire.Package): (g: Graph)
    requires Wire.AcyclicKinds(pkg.kinds)
    ensures |g| == |pkg.types| && forall i :: 0 <= i < |g| ==> g[i] == Touches(pkg.types[i], pkg)
  {
    seq(|pkg.types|, i requires 0 <= i < |pkg.types| => Touches(pkg.types[i], pkg))
  }

  ghost predicate Followed(pkg: Wire.Package, indices: set<int>, n: nat)
    requires Wire.AcyclicKinds(pkg.kinds)
  {
    forall j :: j in indices ==>
      0 <= j < |pkg.types| && n > 0 && RunType(pkg.types[j], pkg, n - 1).Some?
  }

  /** A conversion that returns has followed every entry it comes to, with less fuel. */
  lemma {:induction false} TouchedEnd(t: Wire.Type, pkg: Wire.Package, n: nat)
    requires Wire.AcyclicKinds(pkg.kinds) && RunType(t, pkg, n).Some?
    ensures Followed(pkg, Touches(t, pkg), n)
    decreases t
  {
    hide ResolveString, ConvertQualifiedId, ConvertTypeVars, ApplyBuiltin;
    match t
    case TypeVar(name, args) => if ResolveString(name, pkg).Success? { AllTouchedEnd(args, pkg, n); }
    case TypeCon(id, args) => if ConvertQualifiedId(id, pkg).Success? { AllTouchedEnd(args, pkg, n); }
    case TypeSyn(id, args) => if ConvertQualifiedId(id, pkg).Success? { AllTouchedEnd(args, pkg, n); }
    case TypeBuiltin(builtin, args) => if !builtin.UnknownBuiltinType? { AllTouchedEnd(args, pkg, n); }
    case TypeForall(vars, body) => if ConvertTypeVars(vars, pkg).Success? { TouchedEnd(body, pkg, n); }
    case TypeStruct(fields) => FieldsTouchedEnd(fields, pkg, n);
    case _ =>
  }

  lemma {:induction false} AllTouchedEnd(ts: seq<Wire.Type>, pkg: Wire.Package, n: nat)
    requires Wire.AcyclicKinds(pkg.kinds) && RunTypes(ts, pkg, n).Some?
    ensures Followed(pkg, TouchesAll(ts, pkg), n)
    decreases ts
  {
    hide RunType, Touches;
    if ts != [] {
      TouchedEnd(ts[0], pkg, n);
      if fuel: nat :| RunType(ts[0], pkg, fuel).Some? && RunType(ts[0], pkg, fuel).value.Success? {
        OneResult(ts[0], pkg, n, fuel);
        AllTouchedEnd(ts[1..], pkg, n);
      }
    }
  }

  lemma {:induction false} FieldsTouchedEnd(fs: seq<Wire.FieldWithType>, pkg: Wire.Package, n: nat)
    requires Wire.AcyclicKinds(pkg.kinds) && RunFields(fs, pkg, n).Some?
    ensures Followed(pkg, TouchesFields(fs, pkg), n)
    decreases fs
  {
    hide RunType, Touches, ResolveString;
    if fs != [] && ResolveString(fs[0].name, pkg).Success? {
      assert fs[0].ty < fs[0];
      TouchedEnd(fs[0].ty, pkg, n);
      if fuel: nat :| RunType(fs[0].ty, pkg, fuel).Some? && RunType(fs[0].ty, pkg, fuel).value.Success? {
        OneResult(fs[0].ty, pkg, n, fuel);
        FieldsTouchedEnd(fs[1..], pkg, n);
      }
    }
  }

  // ---------- Returning means no cycle ----------

  /** Every step of a walk costs fuel. */
  lemma {:induction false} WalkCosts(pkg: Wire.Package, path: seq<int>, n: nat)
    requires Wire.AcyclicKinds(pkg.kinds) && Walk(TouchGraph(pkg), path) && RunType(pkg.types[path[0]], pkg, n).Some?
    ensures |path| - 1 <= n && RunType(pkg.types[path[|path| - 1]], pkg, n - (|path| - 1)).Some?
    decreases |path|
  {
    hide RunType, Touches;
    if |path| > 1 {
      TouchedEnd(pkg.types[path[0]], pkg, n);
      assert path[1] in TouchGraph(pkg)[path[0]];
      WalkCosts(pkg, path[1..], n - 1);
    }
  }

  lemma {:induction false} CycleNeverEnds(pkg: Wire.Package, path: seq<int>, k: int, n: nat)
    requires Wire.AcyclicKinds(pkg.kinds) && Leads(TouchGraph(pkg), path, k, k)
    ensures RunType(pkg.types[k], pkg, n).None?
    decreases n
  {
    hide RunType, TouchGraph;
    if RunType(pkg.types[k], pkg, n).Some? {
      WalkCosts(pkg, path, n);
      CycleNeverEnds(pkg, path, k, n - (|path| - 1));
    }
  }

  // ---------- No cycle means returning ----------

  ghost predicate AllThatEnd(indices: set<int>, pkg: Wire.Package)
    requires Wire.AcyclicKinds(pkg.kinds)
  {
    forall j :: j in indices ==> 0 <= j < |pkg.types| && Ends(pkg.types[j], pkg)
  }

  lemma EndOf(indices: set<int>, pkg: Wire.Package, j: int)
    requires Wire.AcyclicKinds(pkg.kinds) && AllThatEnd(indices, pkg) && j in indices
    ensures 0 <= j < |pkg.types| && Ends(pkg.types[j], pkg)
  {
    hide Ends;
  }

  lemma {:induction false} EndsIfTouchedEnd(t: Wire.Type, pkg: Wire.Package) returns (n: nat)
    requires Wire.AcyclicKinds(pkg.kinds)
    requires AllThatEnd(Touches(t, pkg), pkg)
    ensures RunType(t, pkg, n).Some?
    decreases t
  {
    hide ResolveString, ConvertQualifiedId, ConvertTypeVars, ApplyBuiltin, AllThatEnd;
    n := 0;
    match t
    case TypeVar(name, args) => if ResolveString(name, pkg).Success? { n := AllEnd(args, pkg); }
    case TypeCon(id, args) => if ConvertQualifiedId(id, pkg).Success? { n := AllEnd(args, pkg); }
    case TypeSyn(id, args) => if ConvertQualifiedId(id, pkg).Success? { n := AllEnd(args, pkg); }
    case TypeBuiltin(builtin, args) => if !builtin.UnknownBuiltinType? { n := AllEnd(args, pkg); }
    case TypeForall(vars, body) => if ConvertTypeVars(vars, pkg).Success? { n := EndsIfTouchedEnd(body, pkg); }
    case TypeStruct(fields) => n := FieldsEnd(fields, pkg);
    case TypeInterned(idx) =>
      if 0 <= idx < |pkg.types| {
        assert idx in Touches(t, pkg);
        EndOf(Touches(t, pkg), pkg, idx);
        n :| RunType(pkg.types[idx], pkg, n).Some?;
        n := n + 1;
      }
    case _ =>
  }

  lemma {:induction false} AllEnd(ts: seq<Wire.Type>, pkg: Wire.Package) returns (n: nat)
    requires Wire.AcyclicKinds(pkg.kinds)
    requires AllThatEnd(TouchesAll(ts, pkg), pkg)
    ensures RunTypes(ts, pkg, n).Some?
    decreases ts
  {
    hide RunType, Touches, Ends;
    n := 0;
    if ts != [] {
      n := EndsIfTouchedEnd(ts[0], pkg);
      if RunType(ts[0], pkg, n).value.Success? {
        var m := AllEnd(ts[1..], pkg);
        MoreFuel(ts[0], pkg, n, n + m);
        MoreForAll(ts[1..], pkg, m, n + m);
        n := n + m;
      }
    }
  }

  lemma {:induction false} FieldsEnd(fs: seq<Wire.FieldWithType>, pkg: Wire.Package) returns (n: nat)
    requires Wire.AcyclicKinds(pkg.kinds)
    requires AllThatEnd(TouchesFields(fs, pkg), pkg)
    ensures RunFields(fs, pkg, n).Some?
    decreases fs
  {
    hide RunType, Touches, Ends, ResolveString;
    n := 0;
    if fs != [] && ResolveString(fs[0].name, pkg).Success? {
      assert fs[0].ty < fs[0];
      n := EndsIfTouchedEnd(fs[0].ty, pkg);
      if RunType(fs[0].ty, pkg, n).value.Success? {
        var m := FieldsEnd(fs[1..], pkg);
        MoreFuel(fs[0].ty, pkg, n, n + m);
        MoreForFields(fs[1..], pkg, m, n + m);
        n := n + m;
      }
    }
  }

  /** Entry `k` is on a cycle, and conversion of the type comes to it. */
  ghost predicate ComesToCycle(t: Wire.Type, pkg: Wire.Package, k: int)
    requires Wire.AcyclicKinds(pkg.kinds)
  {
    var g := TouchGraph(pkg);
    Reaches(g, k, k) && exists j :: j in Touches(t, pkg) && (j == k || Reaches(g, j, k))
  }

  lemma {:induction false} EntryEnds(pkg: Wire.Package, i: int)
    requires Wire.AcyclicKinds(pkg.kinds) && 0 <= i < |pkg.types|
    requires !Reaches(TouchGraph(pkg), i, i)
    requires forall k :: k in After(TouchGraph(pkg), i) ==> !Reaches(TouchGraph(pkg), k, k)
    ensures Ends(pkg.types[i], pkg)
    decreases |After(TouchGraph(pkg), i)|
  {
    hide RunType, Touches, TouchGraph, Reaches;
    var g := TouchGraph(pkg);
    forall j | j in Touches(pkg.types[i], pkg)
      ensures 0 <= j < |pkg.types| && Ends(pkg.types[j], pkg)
    {
      TouchedInRange(pkg.types[i], pkg, j);
      StepsOn(g, i, j);
      SmallerSet(After(g, j), After(g, i));
      EntryEnds(pkg, j);
    }
    var n := EndsIfTouchedEnd(pkg.types[i], pkg);
  }

  /** As `StepAfter`, when only `j` is known not to be on a cycle. */
  lemma StepsOn(g: Graph, i: int, j: int)
    requires 0 <= i < |g| && 0 <= j < |g| && j in g[i]
    requires forall k :: k in After(g, i) ==> !Reaches(g, k, k)
    ensures j in After(g, i) && After(g, j) < After(g, i)
  {
    assert Leads(g, [i, j], i, j);
    forall k | k in After(g, j)
      ensures k in After(g, i)
    {
      var path :| Leads(g, path, j, k);
      assert Leads(g, [i] + path, i, k);
    }
  }

  lemma {:induction false} TouchedInRange(t: Wire.Type, pkg: Wire.Package, j: int)
    requires Wire.AcyclicKinds(pkg.kinds) && j in Touches(t, pkg)
    ensures 0 <= j < |pkg.types|
    decreases t
  {
    match t
    case TypeVar(_, args) => AllInRange(args, pkg, j);
    case TypeCon(_, args) => AllInRange(args, pkg, j);
    case TypeSyn(_, args) => AllInRange(args, pkg, j);
    case TypeBuiltin(_, args) => AllInRange(args, pkg, j);
    case TypeForall(_, body) => TouchedInRange(body, pkg, j);
    case TypeStruct(fields) => FieldsInRange(fields, pkg, j);
    case _ =>
  }

  lemma {:induction false} AllInRange(ts: seq<Wire.Type>, pkg: Wire.Package, j: int)
    requires Wire.AcyclicKinds(pkg.kinds) && j in TouchesAll(ts, pkg)
    ensures 0 <= j < |pkg.types|
    decreases ts
  {
    hide Touches;
    if j in Touches(ts[0], pkg) {
      TouchedInRange(ts[0], pkg, j);
    } else {
      AllInRange(ts[1..], pkg, j);
    }
  }

  lemma {:induction false} FieldsInRange(fs: seq<Wire.FieldWithType>, pkg: Wire.Package, j: int)
    requires Wire.AcyclicKinds(pkg.kinds) && j in TouchesFields(fs, pkg)
    ensures 0 <= j < |pkg.types|
    decreases fs
  {
    hide Touches, ResolveString;
    assert fs[0].ty < fs[0];
    if j in Touches(fs[0].ty, pkg) {
      TouchedInRange(fs[0].ty, pkg, j);
    } else {
      FieldsInRange(fs[1..], pkg, j);
    }
  }

  // ---------- Both ways ----------

  /** Conversion of a type returns exactly when it comes to no entry that leads back to itself. An entry on a
      cycle that is not used, or lies behind an error, does no harm. */
  lemma EndsIffNoCycle(t: Wire.Type, pkg: Wire.Package)
    requires Wire.AcyclicKinds(pkg.kinds)
    ensures Ends(t, pkg) <==> !exists k :: ComesToCycle(t, pkg, k)
  {
    hide RunType, Touches, TouchGraph, Reaches;
    if Ends(t, pkg) {
      forall k
        ensures !ComesToCycle(t, pkg, k)
      {
        if ComesToCycle(t, pkg, k) {
          EndsOffCycle(t, pkg, k);
        }
      }
    }
    if !exists k :: ComesToCycle(t, pkg, k) {
      forall j | j in Touches(t, pkg)
        ensures 0 <= j < |pkg.types| && Ends(pkg.types[j], pkg)
      {
        TouchedInRange(t, pkg, j);
        var g := TouchGraph(pkg);
        assert !ComesToCycle(t, pkg, j);
        forall k | k in After(g, j)
          ensures !Reaches(g, k, k)
        {
          assert !ComesToCycle(t, pkg, k);
        }
        EntryEnds(pkg, j);
      }
      var n := EndsIfTouchedEnd(t, pkg);
    }
  }

  lemma EndsOffCycle(t: Wire.Type, pkg: Wire.Package, k: int)
    requires Wire.AcyclicKinds(pkg.kinds) && ComesToCycle(t, pkg, k)
    ensures !Ends(t, pkg)
  {
    hide RunType, Touches, TouchGraph;
    var g := TouchGraph(pkg);
    var path :| Leads(g, path, k, k);
    var j :| j in Touches(t, pkg) && (j == k || Reaches(g, j, k));
    if n: nat :| RunType(t, pkg, n).Some? {
      TouchedEnd(t, pkg, n);
      var m: nat := n - 1;
      if j != k {
        var way :| Leads(g, way, j, k);
        WalkCosts(pkg, way, m);
        m := m - (|way| - 1);
      }
      CycleNeverEnds(pkg, path, k, m);
    }
  }

  /** An entry that is a reference to itself. */
  lemma SelfReferenceNeverEnds(pkg: Wire.Package, i: int)
    requires Wire.AcyclicKinds(pkg.kinds) && 0 <= i < |pkg.types| && pkg.types[i] == Wire.TypeInterned(i)
    ensures !Ends(Wire.TypeInterned(i), pkg)
  {
    hide RunType;
    var g := TouchGraph(pkg);
    assert i in g[i];
    assert Leads(g, [i, i], i, i);
    assert ComesToCycle(Wire.TypeInterned(i), pkg, i);
    EndsOffCycle(Wire.TypeInterned(i), pkg, i);
  }

  // ---------- Conversion over acyclic tables ----------

  /** Over a table that can be ranked it returns, always with what conversion gives. */
  lemma RunIsConversion(t: Wire.Type, pkg: Wire.Package)
    requires Wire.Acyclic(pkg)
    ensures Ends(t, pkg)
    ensures forall n: nat :: RunType(t, pkg, n).Some? ==> RunType(t, pkg, n).value == ConvertType(t, pkg)
  {
    hide RunType, ConvertType;
    var m := FuelToConvert(t, pkg);
    forall n: nat | RunType(t, pkg, n).Some?
      ensures RunType(t, pkg, n).value == ConvertType(t, pkg)
    {
      OneResult(t, pkg, n, m);
    }
  }

  lemma {:induction false} FuelToConvert(t: Wire.Type, pkg: Wire.Package) returns (n: nat)
    requires Wire.Acyclic(pkg)
    ensures RunType(t, pkg, n) == Some(ConvertType(t, pkg))
    decreases Wire.TypeBound(t, Wire.TypeRank(pkg.types)), t
  {
    hide ResolveString, ConvertQualifiedId, ConvertTypeVars, ApplyBuiltin;
    n := 0;
    match t
    case TypeVar(name, args) => n := FuelToConvertAll(args, pkg);
    case TypeCon(id, args) => n := FuelToConvertAll(args, pkg);
    case TypeSyn(id, args) => n := FuelToConvertAll(args, pkg);
    case TypeBuiltin(builtin, args) => n := FuelToConvertAll(args, pkg);
    case TypeForall(vars, body) => n := FuelToConvert(body, pkg);
    case TypeStruct(fields) => n := FuelToConvertFields(fields, pkg);
    case TypeInterned(idx) =>
      if 0 <= idx < |pkg.types| {
        n := FuelToConvert(pkg.types[idx], pkg);
        n := n + 1;
      }
    case _ =>
  }

  lemma {:induction false} FuelToConvertAll(ts: seq<Wire.Type>, pkg: Wire.Package) returns (n: nat)
    requires Wire.Acyclic(pkg)
    ensures RunTypes(ts, pkg, n) == Some(ConvertTypes(ts, pkg))
    decreases Wire.TypesBound(ts, Wire.TypeRank(pkg.types)), ts
  {
    hide RunType, ConvertType;
    n := 0;
    if ts != [] {
      n := FuelToConvert(ts[0], pkg);
      var m := FuelToConvertAll(ts[1..], pkg);
      MoreFuel(ts[0], pkg, n, n + m);
      MoreForAll(ts[1..], pkg, m, n + m);
      n := n + m;
    }
  }

  lemma {:induction false} FuelToConvertFields(fs: seq<Wire.FieldWithType>, pkg: Wire.Package) returns (n: nat)
    requires Wire.Acyclic(pkg)
    ensures RunFields(fs, pkg, n) == Some(ConvertFields(fs, pkg))
    decreases Wire.FieldsBound(fs, Wire.TypeRank(pkg.types)), fs
  {
    hide RunType, ConvertType, ResolveString;
    n := 0;
    if fs != [] {
      assert fs[0].ty < fs[0];
      n := FuelToConvert(fs[0].ty, pkg);
      var m := FuelToConvertFields(fs[1..], pkg);
      MoreFuel(fs[0].ty, pkg, n, n + m);
      MoreForFields(fs[1..], pkg, m, n + m);
      n := n + m;
    }
  }
}
