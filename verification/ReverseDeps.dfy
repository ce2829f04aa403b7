/** Which Go packages a change touches, as scripts/validate-touched.py computes it:
    a worklist over reversed imports, then one round of test imports. */
module ReverseDeps {
  import opened Sets

  datatype Package = Package(imports: set<string>, testImports: set<string>)

  type Packages = map<string, Package>

  /** `p` imports `q`, and both are packages of the module. */
  predicate Imports(pkgs: Packages, p: string, q: string) {
    p in pkgs && q in pkgs && q in pkgs[p].imports
  }

  /** A walk along imports, from the importing end. */
  predicate Chain(pkgs: Packages, path: seq<string>) {
    path != [] && path[0] in pkgs &&
    forall i :: 0 <= i < |path| - 1 ==> Imports(pkgs, path[i], path[i + 1])
  }

  predicate ChainTo(pkgs: Packages, path: seq<string>, p: string, changed: set<string>) {
    Chain(pkgs, path) && path[0] == p && path[|path| - 1] in changed
  }

  /** `p` imports a changed package, directly, transitively or by being one. */
  ghost predicate Reaches(pkgs: Packages, p: string, changed: set<string>) {
    exists path :: ChainTo(pkgs, path, p, changed)
  }

  ghost function Reaching(pkgs: Packages, changed: set<string>): set<string> {
    set p | p in pkgs && Reaches(pkgs, p, changed)
  }

  predicate TestsTouch(pkg: Package, affected: set<string>) {
    exists q :: q in pkg.testImports && q in affected
  }

  /** What the script promises to return. */
  ghost function Affected(pkgs: Packages, changed: set<string>): set<string> {
    Reaching(pkgs, changed) + set p | p in pkgs && TestsTouch(pkgs[p], Reaching(pkgs, changed))
  }

  // ---------------------------------------------------------------------------
  // The worklist

  /** The reversed import relation. */
  function ImportersOf(pkgs: Packages, q: string): set<string> {
    set p | p in pkgs && Imports(pkgs, p, q)
  }

  /** The packages of `done` are filed under everything they import. */
  ghost predicate Filed(importers: map<string, set<string>>, pkgs: Packages, done: set<string>) {
    importers.Keys == pkgs.Keys &&
    forall q, x :: q in pkgs ==> (x in importers[q] <==> x in done && Imports(pkgs, x, q))
  }

  /** Files `p` under each of `deps`. */
  method FileUnder(importers: map<string, set<string>>, p: string, deps: set<string>) returns (r: map<string, set<string>>)
    requires deps <= importers.Keys
    ensures r.Keys == importers.Keys
    ensures forall q, x :: q in r ==> (x in r[q] <==> x in importers[q] || (x == p && q in deps))
  {
    r := importers;
    var left := deps;
    while left != {}
      invariant left <= deps && r.Keys == importers.Keys
      invariant forall q, x :: q in r ==> (x in r[q] <==> x in importers[q] || (x == p && q in deps && q !in left))
      decreases |left|
    {
      var dep :| dep in left;
      left := left - {dep};
      r := r[dep := r[dep] + {p}];
    }
  }

  /** Building `importers`: every package is filed under each module package it imports. */
  method BuildImporters(pkgs: Packages) returns (importers: map<string, set<string>>)
    ensures importers.Keys == pkgs.Keys
    ensures forall q :: q in pkgs ==> importers[q] == ImportersOf(pkgs, q)
  {
    importers := map q | q in pkgs :: {};
    var left := pkgs.Keys;
    while left != {}
      invariant left <= pkgs.Keys && Filed(importers, pkgs, pkgs.Keys - left)
      decreases |left|
    {
      var p :| p in left;
      ghost var before := importers;
      importers := FileUnder(importers, p, pkgs[p].imports * pkgs.Keys);
      FileStep(before, importers, pkgs, pkgs.Keys - left, p);
      assert pkgs.Keys - left + {p} == pkgs.Keys - (left - {p});
      left := left - {p};
    }
    FiledAll(importers, pkgs);
  }

  lemma FiledAll(importers: map<string, set<string>>, pkgs: Packages)
    requires Filed(importers, pkgs, pkgs.Keys - {})
    ensures forall q :: q in pkgs ==> importers[q] == ImportersOf(pkgs, q)
  {
    forall q | q in pkgs ensures importers[q] == ImportersOf(pkgs, q) {
      forall x ensures x in importers[q] <==> x in ImportersOf(pkgs, q) {
        assert x in pkgs.Keys - {} <==> x in pkgs;
        assert x in importers[q] <==> x in pkgs.Keys - {} && Imports(pkgs, x, q);
      }
    }
  }

  lemma FileStep(before: map<string, set<string>>, after: map<string, set<string>>, pkgs: Packages, done: set<string>, p: string)
    requires p in pkgs && Filed(before, pkgs, done) && after.Keys == before.Keys
    requires forall q, x :: q in after ==> (x in after[q] <==> x in before[q] || (x == p && q in pkgs[p].imports * pkgs.Keys))
    ensures Filed(after, pkgs, done + {p})
  {
  }

  /** Every package found so far is justified, and every importer of a processed
      package has been found. */
  ghost predicate Progress(pkgs: Packages, changed: set<string>, affected: set<string>, frontier: seq<string>) {
    && changed <= affected <= pkgs.Keys
    && (forall p :: p in affected ==> Reaches(pkgs, p, changed))
    && (forall x :: x in frontier ==> x in affected)
    && (forall q, p :: q in affected && q !in frontier && Imports(pkgs, p, q) ==> p in affected)
  }

  lemma ChangedReaches(pkgs: Packages, p: string, changed: set<string>)
    requires p in changed && p in pkgs
    ensures Reaches(pkgs, p, changed)
  {
    assert ChainTo(pkgs, [p], p, changed);
  }

  lemma ImporterReaches(pkgs: Packages, p: string, q: string, changed: set<string>)
    requires Imports(pkgs, p, q) && Reaches(pkgs, q, changed)
    ensures Reaches(pkgs, p, changed)
  {
    var path :| ChainTo(pkgs, path, q, changed);
    var longer := [p] + path;
    forall i | 0 <= i < |longer| - 1 ensures Imports(pkgs, longer[i], longer[i + 1]) {
      if i > 0 {
        assert Imports(pkgs, path[i - 1], path[i]);
      }
    }
    assert ChainTo(pkgs, longer, p, changed);
  }

  lemma {:induction false} ClosedHoldsChain(pkgs: Packages, closed: set<string>, path: seq<string>)
    requires forall q, p :: q in closed && Imports(pkgs, p, q) ==> p in closed
    requires Chain(pkgs, path) && path[|path| - 1] in closed
    ensures path[0] in closed
    decreases |path|
  {
    if |path| > 1 {
      var tail := path[1..];
      assert Imports(pkgs, path[0], path[1]);
      forall i | 0 <= i < |tail| - 1 ensures Imports(pkgs, tail[i], tail[i + 1]) {
        assert Imports(pkgs, path[i + 1], path[i + 2]);
      }
      ClosedHoldsChain(pkgs, closed, tail);
    }
  }

  /** When the frontier is empty the set is exactly what reaches a change. */
  lemma ExhaustedIsReaching(pkgs: Packages, changed: set<string>, affected: set<string>)
    requires Progress(pkgs, changed, affected, [])
    ensures affected == Reaching(pkgs, changed)
  {
    forall p | p in Reaching(pkgs, changed) ensures p in affected {
      var path :| ChainTo(pkgs, path, p, changed);
      ClosedHoldsChain(pkgs, affected, path);
    }
  }

  /** The body of the worklist loop: file every importer not seen before. */
  method Expand(pkgs: Packages, q: string, importers: set<string>, affected: set<string>, frontier: seq<string>,
                ghost changed: set<string>)
    returns (grown: set<string>, next: seq<string>)
    requires Progress(pkgs, changed, affected, frontier + [q]) && importers == ImportersOf(pkgs, q)
    ensures Progress(pkgs, changed, grown, next)
    ensures affected <= grown <= pkgs.Keys && (grown == affected ==> next == frontier)
  {
    hide Reaches;
    grown, next := affected, frontier;
    var left := importers;
    assert q in frontier + [q] by { assert (frontier + [q])[|frontier|] == q; }
    assert forall x :: x in frontier + [q] <==> x in frontier || x == q;
    while left != {}
      invariant left <= importers && affected <= grown <= pkgs.Keys
      invariant grown == affected ==> next == frontier
      invariant forall x :: x in next ==> x in grown
      invariant forall x :: x in frontier ==> x in next
      invariant forall x :: x in grown && x !in affected ==> x in next
      invariant forall x :: x in grown ==> Reaches(pkgs, x, changed)
      invariant importers - left <= grown
      decreases |left|
    {
      var importer :| importer in left;
      left := left - {importer};
      if importer !in grown {
        ImporterReaches(pkgs, importer, q, changed);
        ghost var before := next;
        next := next + [importer];
        assert next[|before|] == importer;
        assert forall x :: x in before ==> x in next;
        grown := grown + {importer};
      }
    }
  }

  /** `reverse_dependencies`: terminates on every import graph, cyclic ones
      included, and returns exactly the affected packages. */
  method ReverseDependencies(changed: set<string>, pkgs: Packages) returns (r: set<string>)
    requires changed <= pkgs.Keys
    ensures r == Affected(pkgs, changed)
  {
    hide Progress, Reaching, Reaches;
    var importers := BuildImporters(pkgs);
    var affected := changed;
    var frontier := ListOf(changed);
    StartsWithProgress(pkgs, changed, frontier);
    while frontier != []
      invariant Progress(pkgs, changed, affected, frontier) && affected <= pkgs.Keys
      decreases |pkgs.Keys - affected|, |frontier|
    {
      var n := |frontier| - 1;
      var q := frontier[n];
      assert frontier == frontier[..n] + [q];
      FrontierInModule(pkgs, changed, affected, frontier, q);
      var grown, next := Expand(pkgs, q, importers[q], affected, frontier[..n], changed);
      GrowthShrinks(pkgs, affected, grown);
      affected, frontier := grown, next;
    }
    ExhaustedIsReaching(pkgs, changed, affected);
    r := affected + set p | p in pkgs && TestsTouch(pkgs[p], affected);
  }

  lemma StartsWithProgress(pkgs: Packages, changed: set<string>, frontier: seq<string>)
    requires changed <= pkgs.Keys && forall x :: x in frontier <==> x in changed
    ensures Progress(pkgs, changed, changed, frontier)
  {
    forall p | p in changed ensures Reaches(pkgs, p, changed) {
      ChangedReaches(pkgs, p, changed);
    }
  }

  lemma FrontierInModule(pkgs: Packages, changed: set<string>, affected: set<string>, frontier: seq<string>, q: string)
    requires Progress(pkgs, changed, affected, frontier) && q in frontier
    ensures q in pkgs
  {
  }

  lemma GrowthShrinks(pkgs: Packages, affected: set<string>, grown: set<string>)
    requires affected <= grown <= pkgs.Keys
    ensures affected == grown || |pkgs.Keys - grown| < |pkgs.Keys - affected|
  {
    if affected != grown {
      var x :| x in grown && x !in affected;
      assert x in pkgs.Keys - affected && x !in pkgs.Keys - grown;
      SubsetSmaller(pkgs.Keys - grown, pkgs.Keys - affected);
    }
  }

  /** `list(changed)`, in some order. */
  method ListOf(s: set<string>) returns (list: seq<string>)
    ensures forall x :: x in list <==> x in s
  {
    list := [];
    var left := s;
    while left != {}
      invariant left <= s && forall x :: x in list <==> x in s && x !in left
      decreases |left|
    {
      var x :| x in left;
      left := left - {x};
      list := list + [x];
    }
  }

  // ---------------------------------------------------------------------------
  // Laws

  lemma ReachesUnion(pkgs: Packages, p: string, a: set<string>, b: set<string>)
    ensures Reaches(pkgs, p, a + b) <==> Reaches(pkgs, p, a) || Reaches(pkgs, p, b)
  {
    if Reaches(pkgs, p, a + b) {
      var path :| ChainTo(pkgs, path, p, a + b);
      assert ChainTo(pkgs, path, p, a) || ChainTo(pkgs, path, p, b);
    }
    if path :| ChainTo(pkgs, path, p, a) {
      assert ChainTo(pkgs, path, p, a + b);
    }
    if path :| ChainTo(pkgs, path, p, b) {
      assert ChainTo(pkgs, path, p, a + b);
    }
  }

  /** Two changes together affect what they affect separately. */
  lemma AffectedUnion(pkgs: Packages, a: set<string>, b: set<string>)
    ensures Affected(pkgs, a + b) == Affected(pkgs, a) + Affected(pkgs, b)
  {
    forall p ensures Reaches(pkgs, p, a + b) <==> Reaches(pkgs, p, a) || Reaches(pkgs, p, b) {
      ReachesUnion(pkgs, p, a, b);
    }
    assert Reaching(pkgs, a + b) == Reaching(pkgs, a) + Reaching(pkgs, b);
  }

  /** A larger change affects at least as much. */
  lemma AffectedIsMonotone(pkgs: Packages, a: set<string>, b: set<string>)
    requires a <= b
    ensures Affected(pkgs, a) <= Affected(pkgs, b)
  {
    AffectedUnion(pkgs, a, b);
    assert a + b == b;
  }

  /** Following imports once more finds nothing new. */
  lemma ReachingIsIdempotent(pkgs: Packages, changed: set<string>)
    requires changed <= pkgs.Keys
    ensures changed <= Reaching(pkgs, changed)
    ensures Reaching(pkgs, Reaching(pkgs, changed)) == Reaching(pkgs, changed)
  {
    hide Reaches;
    var once := Reaching(pkgs, changed);
    forall p | p in changed ensures p in once {
      ChangedReaches(pkgs, p, changed);
    }
    forall p | p in once ensures p in Reaching(pkgs, once) {
      ChangedReaches(pkgs, p, once);
    }
    forall q, p | q in once && Imports(pkgs, p, q) ensures p in once {
      ImporterReaches(pkgs, p, q, changed);
    }
    forall p | p in Reaching(pkgs, once) ensures p in once {
      ClosedHoldsReaching(pkgs, once, p);
    }
  }

  lemma ClosedHoldsReaching(pkgs: Packages, closed: set<string>, p: string)
    requires forall q, x :: q in closed && Imports(pkgs, x, q) ==> x in closed
    requires Reaches(pkgs, p, closed)
    ensures p in closed
  {
    var path :| ChainTo(pkgs, path, p, closed);
    ClosedHoldsChain(pkgs, closed, path);
  }

  /** A line of packages of the module from `p` to a changed one, each importing the next. */
  ghost predicate ImportsInto(pkgs: Packages, p: string, changed: set<string>) {
    exists line: seq<string> ::
      && line != [] && line[0] == p && line[|line| - 1] in changed
      && (forall i :: 0 <= i < |line| ==> line[i] in pkgs)
      && forall i :: 0 <= i < |line| - 1 ==> line[i] in pkgs && line[i + 1] in pkgs[line[i]].imports
  }

  lemma ReachesByLine(pkgs: Packages, p: string, changed: set<string>)
    ensures Reaches(pkgs, p, changed) <==> ImportsInto(pkgs, p, changed)
  {
    if path :| ChainTo(pkgs, path, p, changed) {
      forall i | 0 <= i < |path| ensures path[i] in pkgs {
        if i > 0 {
          assert Imports(pkgs, path[i - 1], path[i - 1 + 1]);
        }
      }
    }
    if ImportsInto(pkgs, p, changed) {
      var line :| && line != [] && line[0] == p && line[|line| - 1] in changed
                  && (forall i :: 0 <= i < |line| ==> line[i] in pkgs)
                  && forall i :: 0 <= i < |line| - 1 ==> line[i] in pkgs && line[i + 1] in pkgs[line[i]].imports;
      assert ChainTo(pkgs, line, p, changed);
    }
  }

  /** A package is affected exactly when it is in the module and imports its way to a
      changed package, or its tests import a package that does. */
  lemma AffectedExactly(pkgs: Packages, changed: set<string>, p: string)
    ensures p in Affected(pkgs, changed) <==>
            p in pkgs && (ImportsInto(pkgs, p, changed) ||
                          exists q :: q in pkgs[p].testImports && q in pkgs && ImportsInto(pkgs, q, changed))
  {
    hide ImportsInto, Reaches;
    forall x ensures Reaches(pkgs, x, changed) <==> ImportsInto(pkgs, x, changed) {
      ReachesByLine(pkgs, x, changed);
    }
  }
}
