/** The recursion of build_target over the dependencies (user/build.c:488-587 and 692-775). */
module BuildOps {
  import opened Build

  /** How many targets are not being visited. */
  function Unvisited(v: seq<bool>): nat
  {
    if v == [] then 0 else (if v[0] then 0 else 1) + Unvisited(v[1..])
  }

  lemma {:induction false} VisitLess(v: seq<bool>, i: nat)
    requires i < |v| && !v[i]
    ensures Unvisited(v[i := true]) == Unvisited(v) - 1
  {
    if i > 0 {
      VisitLess(v[1..], i - 1);
      assert v[i := true][1..] == v[1..][i - 1 := true];
    } else {
      assert v[i := true][1..] == v[1..];
    }
  }

  /** The targets of log were completed in that order, each after all it depends on. */
  ghost predicate InOrder(p: Plan, log: seq<nat>)
    requires WellFormed(p)
  {
    forall k :: 0 <= k < |log| ==> log[k] < |p.targets| && Ready(p, log[.. k], log[k])
  }

  /** Everything t depends on has been completed, and t is sound. */
  ghost predicate Ready(p: Plan, log: seq<nat>, t: nat)
    requires WellFormed(p) && t < |p.targets|
  {
    Sound(p, t) && forall u: nat :: DependsOn(p, t, u) ==> u in log
  }

  /** Completed targets can be built. */
  lemma {:induction false} CompletedGood(p: Plan, log: seq<nat>, k: nat)
    requires WellFormed(p) && InOrder(p, log) && k < |log|
    ensures Good(p, log[k], k + 1)
    decreases k
  {
    var t := log[k];
    assert Ready(p, log[.. k], t);
    var ds := Deps(p.targets[t]);
    forall i | 0 <= i < |ds| ensures GoodDep(p, ds[i], k) {
      if IsRef(ds[i]) {
        var u := RefOf(p, ds[i]);
        assert DependsOn(p, t, u);
        var j :| 0 <= j < k && log[.. k][j] == u;
        CompletedGood(p, log, j);
        GoodMore(p, u, j + 1, k);
      }
    }
  }

  lemma InOrderMore(p: Plan, log: seq<nat>, t: nat)
    requires WellFormed(p) && InOrder(p, log) && t < |p.targets| && Ready(p, log, t)
    ensures InOrder(p, log + [t])
  {
    var m := log + [t];
    forall k | 0 <= k < |m| ensures m[k] < |p.targets| && Ready(p, m[.. k], m[k]) {
      if k < |log| { assert m[.. k] == log[.. k]; } else { assert m[.. k] == log; }
    }
  }

  lemma InOrderFiles(p: Plan, q: Plan, log: seq<nat>)
    requires WellFormed(p) && InOrder(p, log) && q == p.(files := q.files) && p.files <= q.files
    ensures InOrder(q, log)
  {
    forall k | 0 <= k < |log| ensures Ready(q, log[.. k], log[k]) {
      assert Ready(p, log[.. k], log[k]);
      forall u: nat | DependsOn(q, log[k], u) ensures u in log[.. k] { assert DependsOn(p, log[k], u); }
    }
  }

  /** Skipping a comma, or a name, loses no name. */
  lemma TokensSkip(s: string)
    requires s != []
    ensures s[0] == ',' ==> Tokens(s) == Tokens(s[1..])
    ensures s[0] != ',' ==> Span(s) > 0 && Tokens(s) == [s[.. Span(s)]] + Tokens(s[Span(s)..])
  {}

  /** Nothing that is being visited can be built by going down n levels. */
  predicate Above(p: Plan, visiting: seq<bool>, n: nat)
    requires WellFormed(p)
  {
    forall v :: 0 <= v < |visiting| && visiting[v] ==> !Good(p, v, n)
  }

  lemma AboveLess(p: Plan, visiting: seq<bool>, n: nat, m: nat)
    requires WellFormed(p) && Above(p, visiting, n) && m <= n
    ensures Above(p, visiting, m)
  {
    forall v | 0 <= v < |visiting| && visiting[v] ensures !Good(p, v, m) {
      if Good(p, v, m) { GoodMore(p, v, m, n); }
    }
  }

  lemma GoodStatus(p: Plan, t: nat, n: nat)
    requires WellFormed(p) && t < |p.targets|
    ensures Good(p, t, n) ==> p.current[t] || p.status[t] == 0
  {}

  lemma NotBoth(p: Plan, visiting: seq<bool>, t: nat, n: nat)
    requires WellFormed(p) && t < |visiting| && visiting[t]
    ensures !(Good(p, t, n) && Above(p, visiting, n))
  {}

  /** While t is visited one level less will do. */
  lemma AboveVisited(p: Plan, visiting: seq<bool>, t: nat, n: nat)
    requires WellFormed(p) && t < |visiting|
    ensures Good(p, t, n) && Above(p, visiting, n) ==> Above(p, visiting[t := true], Least(p, t, n) - 1)
  {
    if Good(p, t, n) && Above(p, visiting, n) { AboveLess(p, visiting, n, Least(p, t, n) - 1); }
  }

  class Builder {
    const plan: Plan
    var visiting: seq<bool>
    var finished: seq<bool>
    var files: set<string>
    ghost var seen: set<string>       // all files that ever existed
    ghost var log: seq<nat>

    /** The plan with the given files. */
    ghost function With(files: set<string>): Plan
    {
      plan.(files := files)
    }

    ghost predicate Valid()
      reads this
    {
      && WellFormed(plan) && |visiting| == |finished| == |plan.targets| && InOrder(With(seen), log)
      && files <= seen <= files + Outputs(plan)
      && (forall t :: 0 <= t < |finished| ==> (finished[t] <==> t in log))
      && (forall t :: 0 <= t < |finished| ==> !(finished[t] && visiting[t]))
    }

    constructor (plan: Plan)
      requires WellFormed(plan)
      ensures Valid() && this.plan == plan && log == [] && forall t :: 0 <= t < |visiting| ==> !visiting[t]
      ensures files == plan.files
    {
      this.plan := plan;
      files, seen := plan.files, plan.files;
      visiting, finished, log := seq(|plan.targets|, _ => false), seq(|plan.targets|, _ => false), [];
    }

    /** find_target */
    method FindTarget(name: string) returns (r: nat)
      ensures r == Find(plan.targets, name, 0)
    {
      r := 0;
      while r < |plan.targets|
        invariant r <= |plan.targets| && Find(plan.targets, name, r) == Find(plan.targets, name, 0)
      {
        if plan.targets[r].name == name {
          return r;
        }
        r := r + 1;
      }
    }

    /** check_dependency: false is -1. Going down n levels is enough for it. */
    method CheckDependency(t: nat, dep: string, ghost base: set<string>, ghost n: nat) returns (ok: bool)
      requires Valid() && |dep| < LONGEST && dep != []
      modifies this
      ensures Valid() && visiting == old(visiting) && old(log) <= log && old(seen) <= seen && Alike(plan, old(files), files)
      ensures ok ==> There(With(seen), log, dep)
      ensures base <= old(files) && GoodDep(With(base), dep, n) && Above(With(base), visiting, n) ==> ok && base <= files
      decreases Unvisited(visiting), 1
    {
      if dep[0] != '@' {
        return dep in files;
      }
      var u := FindTarget(dep[1..]);
      if u == |plan.targets| {
        return false;
      }
      ok := BuildTarget(u, base, n);
    }

    /** check_dependency_range */
    method CheckDependencyRange(t: nat, dep: string, ghost base: set<string>, ghost n: nat) returns (ok: bool)
      requires Valid() && dep != []
      modifies this
      ensures Valid() && visiting == old(visiting) && old(log) <= log && old(seen) <= seen && Alike(plan, old(files), files)
      ensures ok ==> There(With(seen), log, dep)
      ensures base <= old(files) && GoodDep(With(base), dep, n) && Above(With(base), visiting, n) ==> ok && base <= files
      decreases Unvisited(visiting), 2
    {
      if |dep| >= LONGEST {
        return false;
      }
      ok := CheckDependency(t, dep, base, n);
    }

    /** check_dependencies */
    method CheckDependencies(t: nat, ghost base: set<string>, ghost n: nat) returns (ok: bool)
      requires Valid() && t < |plan.targets|
      modifies this
      ensures Valid() && visiting == old(visiting) && old(log) <= log && old(seen) <= seen && Alike(plan, old(files), files)
      ensures ok ==> plan.targets[t].deps == "-" || Deps(plan.targets[t]) != []
      ensures ok ==> AllThere(With(seen), log, Deps(plan.targets[t]))
      ensures base <= old(files) && Good(With(base), t, n + 1) && Above(With(base), visiting, n) ==> ok && base <= files
      decreases Unvisited(visiting), 3
    {
      hide InOrder, Good, Above, Outputs, There, GoodDep, DepOk;
      var p := plan.targets[t].deps;
      if p == "-" {
        return true;
      }
      ghost var all, k := Tokens(p), 0;
      var count := 0;
      while p != []
        invariant k <= |all| && all[k..] == Tokens(p) && count == k
        invariant Valid() && visiting == old(visiting) && old(log) <= log && old(seen) <= seen && Alike(plan, old(files), files)
        invariant AllThere(With(seen), log, all[.. k])
        invariant base <= old(files) && Good(With(base), t, n + 1) && Above(With(base), visiting, n) ==> base <= files
        decreases |p|
      {
        ghost var was := p;
        while p != [] && p[0] == ','
          invariant Tokens(p) == Tokens(was) && |p| <= |was|
          modifies {}
          decreases |p|
        {
          TokensSkip(p);
          p := p[1..];
        }
        var len := Span(p);
        if len == 0 {
          continue;
        }
        count := count + 1;
        TokensSkip(p);
        ghost var before, had := log, seen;
        assert all[k..] == [p[.. len]] + Tokens(p[len ..]);
        assert all[k] == p[.. len] && all[k + 1 ..] == Tokens(p[len ..]);
        GoodAt(With(base), t, n, k);
        var there := CheckDependencyRange(t, p[.. len], base, n);
        if !there {
          return false;
        }
        ThereMore(With(had), With(seen), before, log, all, k);
        k := k + 1;
        p := p[len ..];
        if p != [] {
          TokensSkip(p);
          p := p[1..];
        }
      }
      assert all[.. k] == all;
      GoodSome(With(base), t, n);
      return count > 0;
    }

    /** build_target: it ends for every graph of targets, and leaves no visiting flag behind. A
        target is completed only after all it depends on. */
    method BuildTarget(t: nat, ghost base: set<string>, ghost n: nat) returns (ok: bool)
      requires Valid() && t < |plan.targets|
      modifies this
      ensures Valid() && visiting == old(visiting) && old(log) <= log && old(seen) <= seen && Alike(plan, old(files), files)
      ensures ok <==> t in log
      ensures base <= old(files) && Good(With(base), t, n) && Above(With(base), visiting, n) ==> ok && base <= files
      decreases Unvisited(visiting), 0
    {
      hide Good, Above, InOrder, AllThere, Outputs, Sound, Deps;
      if finished[t] {
        return true;
      }
      ghost var p := With(base);
      if visiting[t] {
        NotBoth(p, visiting, t, n);
        return false;
      }
      ghost var m := if Good(p, t, n) then Least(p, t, n) else 1;
      ghost var before := visiting;
      VisitLess(visiting, t);
      AboveVisited(p, visiting, t, n);
      visiting := visiting[t := true];
      var there := CheckDependencies(t, base, m - 1);
      assert visiting[t := false] == before;
      if !there {
        NotMeanwhile(plan, log, t, visiting, finished);
        visiting := visiting[t := false];
        return false;
      }
      ok := Complete(t);
      GoodStatus(p, t, n);
    }

    /** The end of build_target, once all dependencies are there. */
    method Complete(t: nat) returns (ok: bool)
      requires Valid() && t < |plan.targets| && visiting[t] && AllThere(With(seen), log, Deps(plan.targets[t]))
      requires plan.targets[t].deps == "-" || Deps(plan.targets[t]) != []
      modifies this
      ensures Valid() && visiting == old(visiting)[t := false] && old(log) <= log && old(seen) <= seen
      ensures Alike(plan, old(files), files) && (ok ==> old(files) <= files)
      ensures (ok <==> t in log) && (ok <==> plan.current[t] || plan.status[t] == 0)
    {
      hide Good, InOrder, AllThere, Outputs, Sound, Deps;
      NotMeanwhile(plan, log, t, visiting, finished);
      if !plan.current[t] {
        var status := RunRecipe(t);
        if status != 0 {
          visiting := visiting[t := false];
          return false;
        }
      }
      ReadyOf(With(seen), log, t);
      InOrderMore(With(seen), log, t);
      visiting := visiting[t := false];
      finished := finished[t := true];
      log := log + [t];
      return true;
    }

    /** run_recipe: if it makes something, the output is there behind one that succeeds, and may be
        there or not behind one that fails. */
    method RunRecipe(t: nat) returns (status: int)
      requires Valid() && t < |plan.targets|
      modifies this`files, this`seen
      ensures Valid() && status == plan.status[t] && seen == old(seen) + (files - old(files))
      ensures Alike(plan, old(files), files) && (status == 0 ==> old(files) <= files)
      ensures forall ds :: AllThere(With(old(seen)), log, ds) ==> AllThere(With(seen), log, ds)
    {
      status := plan.status[t];
      var target := plan.targets[t];
      if target.makes {
        files := if status == 0 || plan.left[t] then files + {target.output} else files - {target.output};
        seen := seen + files;
      }
      InOrderFiles(With(old(seen)), With(seen), log);
      forall ds | AllThere(With(old(seen)), log, ds) ensures AllThere(With(seen), log, ds) {
        ThereFiles(With(old(seen)), With(seen), log, ds);
      }
    }

    /** The command: a target that can be built with the files there are is built, and one that is
        built can be with these and the outputs; if no target depends on an output as a file, these
        are the same. */
    method BuildOne(t: nat) returns (ok: bool)
      requires Valid() && t < |plan.targets| && forall v :: 0 <= v < |visiting| ==> !visiting[v]
      modifies this
      ensures Valid() && visiting == old(visiting) && old(seen) <= seen && Alike(plan, old(files), files)
      ensures Buildable(With(old(files)), t) ==> ok && old(files) <= files
      ensures ok ==> Buildable(With(seen), t)
      ensures seen <= old(files) + Outputs(plan)
      ensures Apart(plan) ==> (ok <==> Buildable(With(old(files)), t))
    {
      ghost var p := With(files);
      ghost var n: nat := if Buildable(p, t) then Depth(p, t) else 0;
      ok := BuildTarget(t, files, n);
      if ok {
        ghost var k :| 0 <= k < |log| && log[k] == t;
        CompletedGood(With(seen), log, k);
        if Apart(plan) { GoodApart(With(seen), p, t, k + 1); }
      }
    }

    /** build_group: all targets of a group are tried; it succeeds if there is one, and every one
        of them can be built. */
    method BuildGroup(group: string) returns (ok: bool)
      requires Valid() && forall v :: 0 <= v < |visiting| ==> !visiting[v]
      modifies this
      ensures Valid() && visiting == old(visiting)
      ensures HasGroup(plan, group) && AllBuildable(With(old(files)), group, |plan.targets|) ==> ok
      ensures ok ==> HasGroup(plan, group) && AllBuildable(With(seen), group, |plan.targets|)
      ensures Apart(plan) ==> (ok <==> HasGroup(plan, group) && AllBuildable(With(old(files)), group, |plan.targets|))
    {
      var failed, built, i := 0, 0, 0;
      ghost var p := With(files);
      while i < |plan.targets|
        invariant i <= |plan.targets| && Valid() && visiting == old(visiting) && failed >= 0 && built >= 0
        invariant Alike(plan, p.files, files)
        invariant AllBuildable(p, group, i) ==> failed == 0 && p.files <= files
        invariant failed == 0 ==> AllBuildable(With(seen), group, i)
        invariant Apart(plan) ==> (failed == 0 <==> AllBuildable(p, group, i))
        invariant built == 0 <==> forall t :: 0 <= t < i ==> plan.targets[t].group != group
      {
        if plan.targets[i].group == group {
          built := built + 1;
          ghost var was, had := files, seen;
          var good := BuildOne(i);
          GroupMore(p, With(was), With(had), With(seen), group, i, good);
          if !good {
            failed := failed + 1;
          }
        }
        i := i + 1;
      }
      if built == 0 {
        return false;
      }
      return failed == 0;
    }
  }

  ghost predicate AllBuildable(p: Plan, group: string, i: nat)
    requires WellFormed(p)
  {
    forall t :: 0 <= t < i && t < |p.targets| && p.targets[t].group == group ==> Buildable(p, t)
  }

  ghost function Depth(p: Plan, t: nat): (n: nat)
    requires WellFormed(p) && Buildable(p, t)
    ensures Good(p, t, n)
  {
    var n: nat :| Good(p, t, n); n
  }

  /** The dependencies are there, and the targets among them have been completed. */
  predicate AllThere(p: Plan, log: seq<nat>, ds: seq<string>)
  {
    forall k :: 0 <= k < |ds| ==> There(p, log, ds[k])
  }

  predicate There(p: Plan, log: seq<nat>, dep: string)
  {
    DepOk(p, dep) && (IsRef(dep) ==> RefOf(p, dep) in log)
  }

  lemma ThereFiles(p: Plan, q: Plan, log: seq<nat>, ds: seq<string>)
    requires q == p.(files := q.files) && p.files <= q.files && AllThere(p, log, ds)
    ensures AllThere(q, log, ds)
  {
    forall k | 0 <= k < |ds| ensures There(q, log, ds[k]) { assert There(p, log, ds[k]); }
  }

  lemma ThereMore(p: Plan, q: Plan, log: seq<nat>, log': seq<nat>, all: seq<string>, k: nat)
    requires q == p.(files := q.files) && p.files <= q.files
    requires k < |all| && AllThere(p, log, all[.. k]) && log <= log' && There(q, log', all[k])
    ensures AllThere(q, log', all[.. k + 1])
  {
    forall i | 0 <= i < k + 1 ensures There(q, log', all[i]) { if i < k { assert There(p, log, all[.. k][i]); } }
  }

  /** What building target i says about the group, as seen from the plan p at the begin. */
  lemma GroupMore(p: Plan, was: Plan, had: Plan, now: Plan, group: string, i: nat, good: bool)
    requires WellFormed(p) && was == p.(files := was.files) && had == p.(files := had.files) && now == p.(files := now.files)
    requires i < |p.targets| && p.targets[i].group == group && had.files <= now.files
    requires Alike(p, p.files, was.files)
    requires Buildable(was, i) ==> good
    requires good ==> Buildable(now, i)
    requires Apart(p) ==> (good <==> Buildable(was, i))
    ensures AllBuildable(p, group, i + 1) && p.files <= was.files ==> good && Buildable(was, i)
    ensures AllBuildable(had, group, i) && good ==> AllBuildable(now, group, i + 1)
    ensures Apart(p) && AllBuildable(p, group, i) ==> (good <==> AllBuildable(p, group, i + 1))
  {
    if AllBuildable(p, group, i + 1) && p.files <= was.files { BuildableFiles(p, was, i); }
    if AllBuildable(had, group, i) && good {
      forall t | 0 <= t < i && p.targets[t].group == group ensures Buildable(now, t) { BuildableFiles(had, now, t); }
    }
    if Apart(p) { BuildableApart(p, was, i); }
  }

  lemma BuildableFiles(p: Plan, q: Plan, t: nat)
    requires WellFormed(p) && q == p.(files := q.files) && p.files <= q.files && Buildable(p, t)
    ensures Buildable(q, t)
  {
    GoodFiles(p, q, t, Depth(p, t));
  }

  lemma BuildableApart(p: Plan, q: Plan, t: nat)
    requires WellFormed(p) && q == p.(files := q.files) && Apart(p)
    requires Alike(p, p.files, q.files)
    ensures Buildable(p, t) <==> Buildable(q, t)
  {
    if Buildable(p, t) { GoodApart(p, q, t, Depth(p, t)); }
    if Buildable(q, t) { GoodApart(q, p, t, Depth(q, t)); }
  }

  /** The files differ in outputs at most. */
  predicate Alike(p: Plan, f: set<string>, g: set<string>)
  {
    f <= g + Outputs(p) && g <= f + Outputs(p)
  }

  predicate HasGroup(p: Plan, group: string)
  {
    exists t :: 0 <= t < |p.targets| && p.targets[t].group == group
  }

  lemma ReadyOf(p: Plan, log: seq<nat>, t: nat)
    requires WellFormed(p) && t < |p.targets| && AllThere(p, log, Deps(p.targets[t]))
    requires p.targets[t].deps == "-" || Deps(p.targets[t]) != []
    requires p.current[t] || p.status[t] == 0
    ensures Ready(p, log, t)
  {
    var ds := Deps(p.targets[t]);
    forall k | 0 <= k < |ds| ensures DepOk(p, ds[k]) { assert There(p, log, ds[k]); }
    forall u: nat | DependsOn(p, t, u) ensures u in log {
      var k :| 0 <= k < |ds| && IsRef(ds[k]) && RefOf(p, ds[k]) == u;
      assert There(p, log, ds[k]);
    }
  }

  lemma GoodAt(p: Plan, t: nat, n: nat, k: nat)
    requires WellFormed(p) && t < |p.targets| && k < |Deps(p.targets[t])|
    ensures Good(p, t, n + 1) ==> GoodDep(p, Deps(p.targets[t])[k], n)
  {}

  lemma GoodSome(p: Plan, t: nat, n: nat)
    requires WellFormed(p) && t < |p.targets|
    ensures Good(p, t, n + 1) ==> p.targets[t].deps == "-" || Deps(p.targets[t]) != []
  {}

  /** A target is not completed while it is being visited. */
  lemma NotMeanwhile(p: Plan, log: seq<nat>, t: nat, visiting: seq<bool>, finished: seq<bool>)
    requires t < |visiting| == |finished| && visiting[t] && !(finished[t] && visiting[t]) && (finished[t] <==> t in log)
    ensures t !in log
  {}
}
