/** Targets and their dependencies (user/build.c): which of them can be built. */
module Build {
  import opened Counting

  /** struct target without its flags; deps is the list as written, and makes says that the recipe
      is one that makes the output. */
  datatype Target = Target(name: string, group: string, deps: string, output: string, makes: bool)

  /** The build file, the files that exist, and for each target whether it is up to date, what its
      recipe comes to, and whether one that fails leaves its output. */
  datatype Plan = Plan(targets: seq<Target>, files: set<string>, current: seq<bool>, status: seq<int>, left: seq<bool>)

  predicate WellFormed(p: Plan)
  {
    |p.current| == |p.targets| == |p.status| == |p.left|
  }

  /** The files that recipes make. */
  function Outputs(p: Plan): set<string>
  {
    set t | t in p.targets && t.makes :: t.output
  }

  /** No target names one of them as a file that it depends on. */
  predicate Apart(p: Plan)
  {
    forall t :: 0 <= t < |p.targets| ==>
      forall k :: 0 <= k < |Deps(p.targets[t])| && !IsRef(Deps(p.targets[t])[k]) ==> Deps(p.targets[t])[k] !in Outputs(p)
  }

  const LONGEST := 128     // sizeof(dep)

  // ---------- dependency lists ----------

  /** How far it is to the next comma, or to the end. */
  function Span(s: string): (n: nat)
    ensures n <= |s| && (n < |s| ==> s[n] == ',') && forall i :: 0 <= i < n ==> s[i] != ','
  {
    if s == [] || s[0] == ',' then 0 else 1 + Span(s[1..])
  }

  /** The names between commas, without empty ones. */
  function Tokens(s: string): seq<string>
  {
    if s == [] then [] else if s[0] == ',' then Tokens(s[1..]) else [s[.. Span(s)]] + Tokens(s[Span(s)..])
  }

  /** "-" stands for no dependencies. */
  function Deps(t: Target): seq<string>
  {
    if t.deps == "-" then [] else Tokens(t.deps)
  }

  /** find_target: the first target of a name. */
  function Find(ts: seq<Target>, name: string, i: nat): (r: nat)
    requires i <= |ts|
    ensures i <= r <= |ts| && (r < |ts| ==> ts[r].name == name) && forall k :: i <= k < r ==> ts[k].name != name
    decreases |ts| - i
  {
    if i == |ts| || ts[i].name == name then i else Find(ts, name, i + 1)
  }

  predicate IsRef(dep: string)
  {
    dep != [] && dep[0] == '@'
  }

  /** The target a dependency names; |p.targets| if there is none. */
  function RefOf(p: Plan, dep: string): (r: nat)
    requires IsRef(dep)
    ensures r <= |p.targets|
  {
    Find(p.targets, dep[1..], 0)
  }

  /** A dependency that is there: not too long, and a target, or a file that exists. */
  predicate DepOk(p: Plan, dep: string)
  {
    |dep| < LONGEST && if IsRef(dep) then RefOf(p, dep) < |p.targets| else dep in p.files
  }

  /** What has to be right about a target itself. */
  predicate Sound(p: Plan, t: nat)
    requires WellFormed(p) && t < |p.targets|
  {
    && (p.targets[t].deps == "-" || Deps(p.targets[t]) != [])
    && (forall k :: 0 <= k < |Deps(p.targets[t])| ==> DepOk(p, Deps(p.targets[t])[k]))
    && (p.current[t] || p.status[t] == 0)
  }

  predicate DependsOn(p: Plan, t: nat, u: nat)
    requires t < |p.targets|
  {
    exists k :: 0 <= k < |Deps(p.targets[t])| && IsRef(Deps(p.targets[t])[k]) && RefOf(p, Deps(p.targets[t])[k]) == u
  }

  // ---------- what can be built ----------

  /** t can be built by going down at most n levels of dependencies. */
  predicate Good(p: Plan, t: nat, n: nat)
    requires WellFormed(p)
    decreases n, 0
  {
    n > 0 && t < |p.targets| && Sound(p, t) && forall k :: 0 <= k < |Deps(p.targets[t])| ==> GoodDep(p, Deps(p.targets[t])[k], n - 1)
  }

  predicate GoodDep(p: Plan, dep: string, n: nat)
    requires WellFormed(p)
    decreases n, 1
  {
    DepOk(p, dep) && (IsRef(dep) ==> Good(p, RefOf(p, dep), n))
  }

  lemma {:induction false} GoodMore(p: Plan, t: nat, n: nat, m: nat)
    requires WellFormed(p) && Good(p, t, n) && n <= m
    ensures Good(p, t, m)
    decreases n
  {
    forall k | 0 <= k < |Deps(p.targets[t])| ensures GoodDep(p, Deps(p.targets[t])[k], m - 1) {
      var dep := Deps(p.targets[t])[k];
      assert GoodDep(p, dep, n - 1);
      if IsRef(dep) { GoodMore(p, RefOf(p, dep), n - 1, m - 1); }
    }
  }

  /** More files do no harm. */
  lemma {:induction false} GoodFiles(p: Plan, q: Plan, t: nat, n: nat)
    requires WellFormed(p) && q == p.(files := q.files) && p.files <= q.files && Good(p, t, n)
    ensures Good(q, t, n)
    decreases n
  {
    forall k | 0 <= k < |Deps(p.targets[t])| ensures DepOk(q, Deps(p.targets[t])[k]) && GoodDep(q, Deps(p.targets[t])[k], n - 1) {
      var dep := Deps(p.targets[t])[k];
      assert GoodDep(p, dep, n - 1);
      if IsRef(dep) { GoodFiles(p, q, RefOf(p, dep), n - 1); }
    }
  }

  /** Outputs do not matter when no target depends on them as files. */
  lemma {:induction false} GoodApart(p: Plan, q: Plan, t: nat, n: nat)
    requires WellFormed(p) && q == p.(files := q.files) && Apart(p) && Good(p, t, n)
    requires forall f :: f in p.files ==> f in q.files || f in Outputs(p)
    ensures Good(q, t, n)
    decreases n
  {
    forall k | 0 <= k < |Deps(p.targets[t])| ensures DepOk(q, Deps(p.targets[t])[k]) && GoodDep(q, Deps(p.targets[t])[k], n - 1) {
      var dep := Deps(p.targets[t])[k];
      assert GoodDep(p, dep, n - 1);
      if IsRef(dep) { GoodApart(p, q, RefOf(p, dep), n - 1); }
    }
  }

  /** The least depth that will do. */
  function Least(p: Plan, t: nat, n: nat): (m: nat)
    requires WellFormed(p) && Good(p, t, n)
    ensures 0 < m <= n && Good(p, t, m) && !Good(p, t, m - 1)
    decreases n
  {
    if Good(p, t, n - 1) then Least(p, t, n - 1) else n
  }

  /** t can be built. */
  ghost predicate Buildable(p: Plan, t: nat)
    requires WellFormed(p)
  {
    exists n: nat :: Good(p, t, n)
  }

  // ---------- paths ----------

  /** Each target on the path depends on the one behind it. */
  predicate IsPath(p: Plan, path: seq<nat>)
  {
    && path != [] && (forall k :: 0 <= k < |path| ==> path[k] < |p.targets|)
    && forall k :: 0 <= k < |path| - 1 ==> DependsOn(p, path[k], path[k + 1])
  }

  lemma {:induction false} GoodPath(p: Plan, path: seq<nat>, n: nat)
    requires WellFormed(p) && IsPath(p, path) && Good(p, path[0], n)
    ensures |path| <= n && forall k :: 0 <= k < |path| ==> Sound(p, path[k])
    decreases n
  {
    if |path| > 1 {
      assert DependsOn(p, path[0], path[1]);
      var ds := Deps(p.targets[path[0]]);
      var k :| 0 <= k < |ds| && IsRef(ds[k]) && RefOf(p, ds[k]) == path[1];
      assert GoodDep(p, ds[k], n - 1);
      PathTail(p, path);
      GoodPath(p, path[1..], n - 1);
      forall k | 0 <= k < |path| ensures Sound(p, path[k]) { if k > 0 { assert path[1..][k - 1] == path[k]; } }
    }
  }

  lemma PathTail(p: Plan, path: seq<nat>)
    requires IsPath(p, path) && |path| > 1
    ensures IsPath(p, path[1..])
  {
    forall k | 0 <= k < |path[1..]| - 1 ensures DependsOn(p, path[1..][k], path[1..][k + 1]) {
      assert path[1..][k] == path[k + 1];
      assert DependsOn(p, path[k + 1], path[k + 1 + 1]);
    }
  }

  /** Every path from t is sound and at most n long. */
  ghost predicate PathsOk(p: Plan, t: nat, n: nat)
    requires WellFormed(p)
  {
    forall path :: IsPath(p, path) && path[0] == t ==> |path| <= n && Sound(p, path[|path| - 1])
  }

  lemma {:induction false} PathsGood(p: Plan, t: nat, n: nat)
    requires WellFormed(p) && t < |p.targets| && PathsOk(p, t, n)
    ensures Good(p, t, n)
    decreases n
  {
    assert IsPath(p, [t]);
    var ds := Deps(p.targets[t]);
    forall k | 0 <= k < |ds| ensures GoodDep(p, ds[k], n - 1) {
      assert DepOk(p, ds[k]);
      if IsRef(ds[k]) {
        var u := RefOf(p, ds[k]);
        assert DependsOn(p, t, u);
        forall path | IsPath(p, path) && path[0] == u ensures |path| <= n - 1 && Sound(p, path[|path| - 1]) {
          PathFront(p, t, path);
          assert ([t] + path)[|path|] == path[|path| - 1];
        }
        PathsGood(p, u, n - 1);
      }
    }
  }

  lemma PathFront(p: Plan, t: nat, path: seq<nat>)
    requires t < |p.targets| && IsPath(p, path) && DependsOn(p, t, path[0])
    ensures IsPath(p, [t] + path)
  {
    var q := [t] + path;
    forall k | 0 <= k < |q| - 1 ensures DependsOn(p, q[k], q[k + 1]) {
      if k > 0 {
        assert q[k] == path[k - 1] && q[k + 1] == path[(k - 1) + 1];
      }
    }
  }

  /** A path that comes back to a target. */
  predicate Loops(path: seq<nat>)
  {
    exists i, j :: 0 <= i < j < |path| && path[i] == path[j]
  }

  /** A target can be built if and only if every target it depends on, at any distance, is sound,
      and none of these paths comes back to where it was. */
  lemma BuildableIff(p: Plan, t: nat)
    requires WellFormed(p) && t < |p.targets|
    ensures Buildable(p, t) <==>
      forall path :: IsPath(p, path) && path[0] == t ==> Sound(p, path[|path| - 1]) && !Loops(path)
  {
    if Buildable(p, t) {
      var n: nat :| Good(p, t, n);
      forall path | IsPath(p, path) && path[0] == t ensures Sound(p, path[|path| - 1]) && !Loops(path) {
        GoodPath(p, path, n);
        if Loops(path) {
          var i, j :| 0 <= i < j < |path| && path[i] == path[j];
          var q := GoOn(p, path, i, j, n);
          GoodPath(p, q, n);
        }
      }
    } else if forall path :: IsPath(p, path) && path[0] == t ==> Sound(p, path[|path| - 1]) && !Loops(path) {
      forall path | IsPath(p, path) && path[0] == t ensures |path| <= |p.targets| {
        Pigeonhole(path, |p.targets|);
      }
      PathsGood(p, t, |p.targets|);
    }
  }

  /** A path that comes back can be made as long as one likes. */
  lemma {:induction false} GoOn(p: Plan, path: seq<nat>, i: nat, j: nat, n: nat) returns (q: seq<nat>)
    requires IsPath(p, path) && i < j < |path| && path[i] == path[j]
    ensures IsPath(p, q) && q[0] == path[0] && |q| >= |path| + n
    decreases n
  {
    if n == 0 {
      q := path;
    } else {
      var r := path[.. j] + path[i ..];
      forall k | 0 <= k < |r| - 1 ensures DependsOn(p, r[k], r[k + 1]) {
        if k < j - 1 {
          assert r[k] == path[k] && r[k + 1] == path[k + 1];
        } else if k == j - 1 {
          assert r[k] == path[j - 1] && r[k + 1] == path[(j - 1) + 1];
        } else {
          assert r[k] == path[k - j + i] && r[k + 1] == path[(k - j + i) + 1];
        }
      }
      assert r[i] == path[i] && r[j] == path[i];
      q := GoOn(p, r, i, j, n - 1);
    }
  }
}
