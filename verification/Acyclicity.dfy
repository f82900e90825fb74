/** What the premise of conversion, tables that can be ranked, means for the tables themselves: no walk along
    mentions returns to where it started. */
module Acyclicity {
  import opened Wire

  // ---------- Graphs ----------

  /** For every entry of a table the indices it mentions; those outside the table lead nowhere. */
  type Graph = seq<set<int>>

  ghost predicate AllBelow(indices: set<int>, rank: seq<nat>, m: nat) {
    forall j :: j in indices && 0 <= j < |rank| ==> rank[j] < m
  }

  ghost predicate Ranked(g: Graph, rank: seq<nat>) {
    |rank| == |g| && forall i :: 0 <= i < |g| ==> AllBelow(g[i], rank, rank[i])
  }

  ghost predicate Rankable(g: Graph) {
    exists rank :: Ranked(g, rank)
  }

  /** A walk through the table along mentions. */
  ghost predicate Walk(g: Graph, path: seq<int>) {
    && path != []
    && (forall i :: 0 <= i < |path| ==> 0 <= path[i] < |g|)
    && (forall i :: 0 < i < |path| ==> path[i] in g[path[i - 1]])
  }

  ghost predicate Leads(g: Graph, path: seq<int>, i: int, k: int) {
    Walk(g, path) && |path| > 1 && path[0] == i && path[|path| - 1] == k
  }

  ghost predicate Reaches(g: Graph, i: int, k: int) {
    exists path :: Leads(g, path, i, k)
  }

  ghost predicate Cyclic(g: Graph) {
    exists i :: Reaches(g, i, i)
  }

  lemma {:induction false} WalkDescends(g: Graph, rank: seq<nat>, path: seq<int>)
    requires Ranked(g, rank) && Walk(g, path) && |path| > 1
    ensures rank[path[|path| - 1]] < rank[path[0]]
    decreases |path|
  {
    assert AllBelow(g[path[0]], rank, rank[path[0]]);
    if |path| > 2 {
      WalkDescends(g, rank, path[1..]);
    }
  }

  /** Where walks of at least one step from `i` lead. */
  ghost function After(g: Graph, i: int): set<int> {
    set k | 0 <= k < |g| && Reaches(g, i, k)
  }

  lemma StepAfter(g: Graph, i: int, j: int)
    requires !Cyclic(g) && 0 <= i < |g| && 0 <= j < |g| && j in g[i]
    ensures After(g, j) < After(g, i)
  {
    assert Leads(g, [i, j], i, j);
    forall k | k in After(g, j)
      ensures k in After(g, i)
    {
      var path :| Leads(g, path, j, k);
      assert Leads(g, [i] + path, i, k);
    }
    assert j in After(g, i) && !Reaches(g, j, j);
  }

  lemma SmallerSet<T>(a: set<T>, b: set<T>)
    requires a < b
    ensures |a| < |b|
  {
    var x :| x in b && x !in a;
    assert a <= b - {x};
    SubsetSize(a, b - {x});
  }

  lemma {:induction false} SubsetSize<T>(a: set<T>, b: set<T>)
    requires a <= b
    ensures |a| <= |b|
  {
    if x :| x in a {
      SubsetSize(a - {x}, b - {x});
    }
  }

  ghost function Sizes(g: Graph): (rank: seq<nat>)
    ensures |rank| == |g| && forall i :: 0 <= i < |g| ==> rank[i] == |After(g, i)|
  {
    seq(|g|, i requires 0 <= i < |g| => |After(g, i)|)
  }

  /** A table can be ranked exactly when no walk through it returns to where it started. */
  lemma RankableIffNoCycle(g: Graph)
    ensures Rankable(g) <==> !Cyclic(g)
  {
    if Cyclic(g) {
      var i :| Reaches(g, i, i);
      var path :| Leads(g, path, i, i);
      if rank :| Ranked(g, rank) {
        WalkDescends(g, rank, path);
      }
    } else {
      forall i, j | 0 <= i < |g| && 0 <= j < |g| && j in g[i]
        ensures |After(g, j)| < |After(g, i)|
      {
        StepAfter(g, i, j);
        SmallerSet(After(g, j), After(g, i));
      }
      assert Ranked(g, Sizes(g));
    }
  }

  ghost function Positions(n: nat): (r: seq<nat>)
    ensures |r| == n && forall i :: 0 <= i < n ==> r[i] == i
  {
    seq(n, i requires 0 <= i < n => i)
  }

  /** Every entry mentions only earlier entries, which is how tables are written. */
  ghost predicate LowerIndexed(g: Graph) {
    forall i, j :: 0 <= i < |g| && 0 <= j < |g| && j in g[i] ==> j < i
  }

  lemma LowerIndexedRankable(g: Graph)
    requires LowerIndexed(g)
    ensures Rankable(g)
  {
    assert Ranked(g, Positions(|g|));
  }

  // ---------- Types ----------

  /** The table indices a type mentions. */
  ghost function Mentions(t: Type): set<int>
    decreases t
  {
    match t
    case TypeVar(_, args) => AllMentions(args)
    case TypeCon(_, args) => AllMentions(args)
    case TypeSyn(_, args) => AllMentions(args)
    case TypeBuiltin(_, args) => AllMentions(args)
    case TypeForall(_, body) => Mentions(body)
    case TypeStruct(fields) => FieldMentions(fields)
    case TypeInterned(idx) => {idx}
    case _ => {}
  }

  ghost function AllMentions(ts: seq<Type>): set<int>
    decreases ts
  {
    if ts == [] then {} else Mentions(ts[0]) + AllMentions(ts[1..])
  }

  ghost function FieldMentions(fs: seq<FieldWithType>): set<int>
    decreases fs
  {
    if fs == [] then {} else
      assert fs[0].ty < fs[0];
      Mentions(fs[0].ty) + FieldMentions(fs[1..])
  }

  /** The bound of a type is the least number above the ranks of what it mentions. */
  lemma {:induction false} BoundIsLeast(t: Type, rank: seq<nat>, m: nat)
    ensures TypeBound(t, rank) <= m <==> AllBelow(Mentions(t), rank, m)
    decreases t
  {
    match t
    case TypeVar(_, args) => BoundsAreLeast(args, rank, m);
    case TypeCon(_, args) => BoundsAreLeast(args, rank, m);
    case TypeSyn(_, args) => BoundsAreLeast(args, rank, m);
    case TypeBuiltin(_, args) => BoundsAreLeast(args, rank, m);
    case TypeForall(_, body) => BoundIsLeast(body, rank, m);
    case TypeStruct(fields) => FieldBoundIsLeast(fields, rank, m);
    case _ =>
  }

  lemma {:induction false} BoundsAreLeast(ts: seq<Type>, rank: seq<nat>, m: nat)
    ensures TypesBound(ts, rank) <= m <==> AllBelow(AllMentions(ts), rank, m)
    decreases ts
  {
    if ts != [] {
      hide TypeBound, Mentions;
      BoundIsLeast(ts[0], rank, m);
      BoundsAreLeast(ts[1..], rank, m);
    }
  }

  lemma {:induction false} FieldBoundIsLeast(fs: seq<FieldWithType>, rank: seq<nat>, m: nat)
    ensures FieldsBound(fs, rank) <= m <==> AllBelow(FieldMentions(fs), rank, m)
    decreases fs
  {
    if fs != [] {
      hide TypeBound, Mentions;
      assert fs[0].ty < fs[0];
      BoundIsLeast(fs[0].ty, rank, m);
      FieldBoundIsLeast(fs[1..], rank, m);
    }
  }

  ghost function TypeGraph(types: seq<Type>): (g: Graph)
    ensures |g| == |types| && forall i :: 0 <= i < |types| ==> g[i] == Mentions(types[i])
  {
    seq(|types|, i requires 0 <= i < |types| => Mentions(types[i]))
  }

  /** A type table meets the premise of conversion exactly when no walk through it returns to its start. The
      converter does not look for cycles; which conversions return on a table that has one is the subject of
      `Termination`. */
  lemma TypesAcyclicIff(types: seq<Type>)
    ensures AcyclicTypes(types) <==> !Cyclic(TypeGraph(types))
    ensures LowerIndexed(TypeGraph(types)) ==> AcyclicTypes(types)
  {
    hide TypeBound, Mentions, LowerIndexed;
    var g := TypeGraph(types);
    forall rank: seq<nat>
      ensures TypesRanked(types, rank) <==> Ranked(g, rank)
    {
      if |rank| == |types| {
        forall i | 0 <= i < |types|
          ensures TypeBound(types[i], rank) <= rank[i] <==> AllBelow(g[i], rank, rank[i])
        {
          BoundIsLeast(types[i], rank, rank[i]);
        }
      }
    }
    RankableIffNoCycle(g);
    if LowerIndexed(g) {
      LowerIndexedRankable(g);
    }
  }

  // ---------- Kinds ----------

  ghost function KindMentions(k: Kind): set<int>
    decreases k
  {
    match k
    case KindArrow(params, result) => KindsMentions(params) + KindMentions(result)
    case KindInterned(idx) => {idx}
    case _ => {}
  }

  ghost function KindsMentions(ks: seq<Kind>): set<int>
    decreases ks
  {
    if ks == [] then {} else KindMentions(ks[0]) + KindsMentions(ks[1..])
  }

  lemma {:induction false} KindBoundIsLeast(k: Kind, rank: seq<nat>, m: nat)
    ensures KindBound(k, rank) <= m <==> AllBelow(KindMentions(k), rank, m)
    decreases k
  {
    if k.KindArrow? {
      KindsBoundIsLeast(k.params, rank, m);
      KindBoundIsLeast(k.result, rank, m);
    }
  }

  lemma {:induction false} KindsBoundIsLeast(ks: seq<Kind>, rank: seq<nat>, m: nat)
    ensures KindsBound(ks, rank) <= m <==> AllBelow(KindsMentions(ks), rank, m)
    decreases ks
  {
    if ks != [] {
      KindBoundIsLeast(ks[0], rank, m);
      KindsBoundIsLeast(ks[1..], rank, m);
    }
  }

  ghost function KindGraph(kinds: seq<Kind>): (g: Graph)
    ensures |g| == |kinds| && forall i :: 0 <= i < |kinds| ==> g[i] == KindMentions(kinds[i])
  {
    seq(|kinds|, i requires 0 <= i < |kinds| => KindMentions(kinds[i]))
  }

  /** The same for kind tables. */
  lemma KindsAcyclicIff(kinds: seq<Kind>)
    ensures AcyclicKinds(kinds) <==> !Cyclic(KindGraph(kinds))
    ensures LowerIndexed(KindGraph(kinds)) ==> AcyclicKinds(kinds)
  {
    hide KindBound, KindMentions, LowerIndexed;
    var g := KindGraph(kinds);
    forall rank: seq<nat>
      ensures KindsRanked(kinds, rank) <==> Ranked(g, rank)
    {
      if |rank| == |kinds| {
        forall i | 0 <= i < |kinds|
          ensures KindBound(kinds[i], rank) <= rank[i] <==> AllBelow(g[i], rank, rank[i])
        {
          KindBoundIsLeast(kinds[i], rank, rank[i]);
        }
      }
    }
    RankableIffNoCycle(g);
    if LowerIndexed(g) {
      LowerIndexedRankable(g);
    }
  }

  // ---------- Expressions ----------

  ghost function ExprMentions(e: Expr): set<int>
    decreases e
  {
    match e
    case ExprRecCon(_, _, fields) => FieldExprsMentions(fields)
    case ExprApp(fun, args) => ExprMentions(fun) + ExprsMentions(args)
    case ExprTyApp(expr, _) => ExprMentions(expr)
    case ExprAbs(_, body) => ExprMentions(body)
    case ExprTyAbs(_, body) => ExprMentions(body)
    case ExprCase(scrut, alts) => ExprMentions(scrut) + AltsMentions(alts)
    case ExprLet(bindings, body) => BindingsMentions(bindings) + ExprMentions(body)
    case ExprUpdate(update) => UpdateMentions(update)
    case ExprInterned(idx) => {idx}
    case _ => {}
  }

  ghost function UpdateMentions(u: Update): set<int>
    decreases u
  {
    match u
    case UpdatePure(_, expr) => ExprMentions(expr)
    case UpdateBlock(bindings, body) => BindingsMentions(bindings) + ExprMentions(body)
    case UpdateCreate(_, expr) => ExprMentions(expr)
    case UpdateExercise(_, cid, arg, _) => ExprMentions(cid) + ExprMentions(arg)
    case _ => {}
  }

  ghost function ExprsMentions(es: seq<Expr>): set<int>
    decreases es
  {
    if es == [] then {} else ExprMentions(es[0]) + ExprsMentions(es[1..])
  }

  ghost function FieldExprsMentions(fs: seq<FieldWithExpr>): set<int>
    decreases fs
  {
    if fs == [] then {} else
      assert fs[0].expr < fs[0];
      ExprMentions(fs[0].expr) + FieldExprsMentions(fs[1..])
  }

  ghost function AltsMentions(alts: seq<CaseAlt>): set<int>
    decreases alts
  {
    if alts == [] then {} else
      assert alts[0].body < alts[0];
      ExprMentions(alts[0].body) + AltsMentions(alts[1..])
  }

  ghost function BindingsMentions(bs: seq<Binding>): set<int>
    decreases bs
  {
    if bs == [] then {} else
      assert bs[0].bound < bs[0];
      ExprMentions(bs[0].bound) + BindingsMentions(bs[1..])
  }

  lemma {:induction false} ExprBoundIsLeast(e: Expr, rank: seq<nat>, m: nat)
    ensures ExprBound(e, rank) <= m <==> AllBelow(ExprMentions(e), rank, m)
    decreases e
  {
    match e
    case ExprRecCon(_, _, fields) => FieldExprsBoundIsLeast(fields, rank, m);
    case ExprApp(fun, args) =>
      ExprBoundIsLeast(fun, rank, m);
      ExprsBoundIsLeast(args, rank, m);
    case ExprTyApp(expr, _) => ExprBoundIsLeast(expr, rank, m);
    case ExprAbs(_, body) => ExprBoundIsLeast(body, rank, m);
    case ExprTyAbs(_, body) => ExprBoundIsLeast(body, rank, m);
    case ExprCase(scrut, alts) =>
      ExprBoundIsLeast(scrut, rank, m);
      AltsBoundIsLeast(alts, rank, m);
    case ExprLet(bindings, body) =>
      BindingsBoundIsLeast(bindings, rank, m);
      ExprBoundIsLeast(body, rank, m);
    case ExprUpdate(update) => UpdateBoundIsLeast(update, rank, m);
    case _ =>
  }

  lemma {:induction false} UpdateBoundIsLeast(u: Update, rank: seq<nat>, m: nat)
    ensures UpdateBound(u, rank) <= m <==> AllBelow(UpdateMentions(u), rank, m)
    decreases u
  {
    match u
    case UpdatePure(_, expr) => ExprBoundIsLeast(expr, rank, m);
    case UpdateBlock(bindings, body) =>
      BindingsBoundIsLeast(bindings, rank, m);
      ExprBoundIsLeast(body, rank, m);
    case UpdateCreate(_, expr) => ExprBoundIsLeast(expr, rank, m);
    case UpdateExercise(_, cid, arg, _) =>
      ExprBoundIsLeast(cid, rank, m);
      ExprBoundIsLeast(arg, rank, m);
    case _ =>
  }

  lemma {:induction false} ExprsBoundIsLeast(es: seq<Expr>, rank: seq<nat>, m: nat)
    ensures ExprsBound(es, rank) <= m <==> AllBelow(ExprsMentions(es), rank, m)
    decreases es
  {
    if es != [] {
      hide ExprBound, ExprMentions;
      ExprBoundIsLeast(es[0], rank, m);
      ExprsBoundIsLeast(es[1..], rank, m);
    }
  }

  lemma {:induction false} FieldExprsBoundIsLeast(fs: seq<FieldWithExpr>, rank: seq<nat>, m: nat)
    ensures FieldExprsBound(fs, rank) <= m <==> AllBelow(FieldExprsMentions(fs), rank, m)
    decreases fs
  {
    if fs != [] {
      hide ExprBound, ExprMentions;
      assert fs[0].expr < fs[0];
      ExprBoundIsLeast(fs[0].expr, rank, m);
      FieldExprsBoundIsLeast(fs[1..], rank, m);
    }
  }

  lemma {:induction false} AltsBoundIsLeast(alts: seq<CaseAlt>, rank: seq<nat>, m: nat)
    ensures AltsBound(alts, rank) <= m <==> AllBelow(AltsMentions(alts), rank, m)
    decreases alts
  {
    if alts != [] {
      hide ExprBound, ExprMentions;
      assert alts[0].body < alts[0];
      ExprBoundIsLeast(alts[0].body, rank, m);
      AltsBoundIsLeast(alts[1..], rank, m);
    }
  }

  lemma {:induction false} BindingsBoundIsLeast(bs: seq<Binding>, rank: seq<nat>, m: nat)
    ensures BindingsBound(bs, rank) <= m <==> AllBelow(BindingsMentions(bs), rank, m)
    decreases bs
  {
    if bs != [] {
      hide ExprBound, ExprMentions;
      assert bs[0].bound < bs[0];
      ExprBoundIsLeast(bs[0].bound, rank, m);
      BindingsBoundIsLeast(bs[1..], rank, m);
    }
  }

  ghost function ExprGraph(exprs: seq<Expr>): (g: Graph)
    ensures |g| == |exprs| && forall i :: 0 <= i < |exprs| ==> g[i] == ExprMentions(exprs[i])
  {
    seq(|exprs|, i requires 0 <= i < |exprs| => ExprMentions(exprs[i]))
  }

  /** The same for expression tables. */
  lemma ExprsAcyclicIff(exprs: seq<Expr>)
    ensures AcyclicExprs(exprs) <==> !Cyclic(ExprGraph(exprs))
    ensures LowerIndexed(ExprGraph(exprs)) ==> AcyclicExprs(exprs)
  {
    hide ExprBound, ExprMentions, LowerIndexed;
    var g := ExprGraph(exprs);
    forall rank: seq<nat>
      ensures ExprsRanked(exprs, rank) <==> Ranked(g, rank)
    {
      if |rank| == |exprs| {
        forall i | 0 <= i < |exprs|
          ensures ExprBound(exprs[i], rank) <= rank[i] <==> AllBelow(g[i], rank, rank[i])
        {
          ExprBoundIsLeast(exprs[i], rank, rank[i]);
        }
      }
    }
    RankableIffNoCycle(g);
    if LowerIndexed(g) {
      LowerIndexedRankable(g);
    }
  }
}
