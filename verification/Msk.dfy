/**
  The dependency order of the package manager (apps/msk.c:268-305, 442-449).
 */
module Msk {
  import opened Basics

  /** The manifest, with the dependency field of each package split at spaces, and
      the packages already installed. */
  datatype Store = Store(manifest: map<string, seq<string>>, installed: set<string>)

  /** A package that would have to be installed. */
  predicate Wanted(s: Store, name: string) {
    name != "" && name in s.manifest && name !in s.installed
  }

  predicate Known(s: Store, name: string) {
    name != "" && (name in s.installed || name in s.manifest)
  }

  // ------------------------------------------------------------------ dependencies

  /** Packages to be installed, each one a dependency of the one before it. */
  ghost predicate Chain(s: Store, p: seq<string>) {
    p != [] && (forall i :: 0 <= i < |p| ==> Wanted(s, p[i])) &&
    forall i {:trigger p[i]} :: 0 < i < |p| ==> p[i] in s.manifest[p[i - 1]]
  }

  /** A package needs another, directly or not, through packages not installed. */
  ghost predicate Needs(s: Store, a: string, b: string) {
    exists p :: Chain(s, p) && p[0] == a && p[|p| - 1] == b
  }

  /** The same in at least one step. */
  ghost predicate Leads(s: Store, a: string, b: string) {
    exists p :: Chain(s, p) && |p| > 1 && p[0] == a && p[|p| - 1] == b
  }

  /** The package needs one that needs itself. */
  ghost predicate ReachesCycle(s: Store, name: string) {
    exists a :: Needs(s, name, a) && Leads(s, a, a)
  }

  lemma CycleThroughDependency(s: Store, a: string, d: string)
    requires Wanted(s, a) && d in s.manifest[a] && ReachesCycle(s, d)
    ensures ReachesCycle(s, a)
  {
    var c :| Needs(s, d, c) && Leads(s, c, c);
    NeedsFirst(s, a, d, c);
  }

  /** A package that reaches a cycle has a dependency that does. */
  lemma CycleBelow(s: Store, a: string)
    requires ReachesCycle(s, a)
    ensures Wanted(s, a) && exists d :: d in s.manifest[a] && ReachesCycle(s, d)
  {
    var c :| Needs(s, a, c) && Leads(s, c, c);
    if a == c {
      var p :| Chain(s, p) && |p| > 1 && p[0] == a && p[|p| - 1] == a;
      var q := p[1..];
      assert forall i :: 0 <= i < |q| ==> q[i] == p[i + 1];
      assert Chain(s, q) && Needs(s, q[0], a);
      assert q[0] in s.manifest[a] && ReachesCycle(s, q[0]);
    } else {
      NeedsUnfold(s, a, c);
      var d :| d in s.manifest[a] && Needs(s, d, c);
      assert ReachesCycle(s, d);
    }
  }

  lemma NeedsSelf(s: Store, a: string)
    requires Wanted(s, a)
    ensures Needs(s, a, a)
  {
    assert Chain(s, [a]);
  }

  lemma NeedsFirst(s: Store, a: string, d: string, b: string)
    requires Wanted(s, a) && d in s.manifest[a] && Needs(s, d, b)
    ensures Needs(s, a, b)
  {
    var p :| Chain(s, p) && p[0] == d && p[|p| - 1] == b;
    assert Chain(s, [a] + p);
  }

  /** What a package needs is itself and what its dependencies need. */
  lemma NeedsUnfold(s: Store, a: string, b: string)
    requires Needs(s, a, b) && a != b
    ensures Wanted(s, a) && exists d :: d in s.manifest[a] && Needs(s, d, b)
  {
    var p :| Chain(s, p) && p[0] == a && p[|p| - 1] == b;
    var q := p[1..];
    assert forall i :: 0 <= i < |q| ==> q[i] == p[i + 1];
    assert Chain(s, q);
    assert q[0] in s.manifest[a] && Needs(s, q[0], b);
  }

  lemma NeedsBackCloses(s: Store, a: string, d: string)
    requires Wanted(s, a) && d in s.manifest[a] && Needs(s, d, a)
    ensures Leads(s, a, a)
  {
    var p :| Chain(s, p) && p[0] == d && p[|p| - 1] == a;
    var q := [a] + p;
    assert Chain(s, q) && |q| > 1 && q[0] == a && q[|q| - 1] == a;
  }

  // ------------------------------------------------------------------- install lists

  /** A list to install from: no package twice, none that is installed, and each
      after all that it depends on. */
  ghost predicate Ordered(s: Store, pkgs: seq<string>) {
    NoDup(pkgs) &&
    forall i :: 0 <= i < |pkgs| ==>
      Wanted(s, pkgs[i]) && forall d :: d in s.manifest[pkgs[i]] && Wanted(s, d) ==> d in pkgs[..i]
  }

  /** Such a list has everything that its packages need. */
  lemma {:induction false} OrderedIsClosed(s: Store, pkgs: seq<string>, p: seq<string>)
    requires Ordered(s, pkgs) && Chain(s, p) && p[0] in pkgs
    ensures p[|p| - 1] in pkgs
    decreases |p|
  {
    if |p| > 1 {
      var q := p[1..];
      assert forall i :: 0 <= i < |q| ==> q[i] == p[i + 1];
      var i :| 0 <= i < |pkgs| && pkgs[i] == p[0];
      assert p[1] in pkgs[..i];
      OrderedIsClosed(s, pkgs, q);
    }
  }

  lemma OrderedHasNeeds(s: Store, pkgs: seq<string>, a: string, b: string)
    requires Ordered(s, pkgs) && a in pkgs && Needs(s, a, b)
    ensures b in pkgs
  {
    var p :| Chain(s, p) && p[0] == a && p[|p| - 1] == b;
    OrderedIsClosed(s, pkgs, p);
  }

  lemma OrderedAppend(s: Store, pkgs: seq<string>, name: string)
    requires Ordered(s, pkgs) && Wanted(s, name) && name !in pkgs
    requires forall d :: d in s.manifest[name] && Wanted(s, d) ==> d in pkgs
    ensures Ordered(s, pkgs + [name])
  {
    var all := pkgs + [name];
    forall i | 0 <= i < |all|
      ensures Wanted(s, all[i]) && forall d :: d in s.manifest[all[i]] && Wanted(s, d) ==> d in all[..i]
    {
      if i < |pkgs| {
        assert all[..i] == pkgs[..i];
      } else {
        assert all[..i] == pkgs;
      }
    }
  }

  /** Every dependency can be met. */
  ghost predicate Complete(s: Store) {
    forall a :: a in s.manifest ==> forall d :: d in s.manifest[a] ==> Known(s, d)
  }

  /** With a complete manifest every dependency of a listed package is installed or earlier. */
  lemma InstallOrder(s: Store, pkgs: seq<string>, i: nat, d: string)
    requires Ordered(s, pkgs) && i < |pkgs| && d in s.manifest[pkgs[i]]
    requires Complete(s)
    ensures d in s.installed || d in pkgs[..i]
  {
    var a := pkgs[i];
    assert Wanted(s, a);
    assert d in s.manifest[a] ==> Known(s, d);
  }

  /** What processing a name adds: all that it needs, nothing else. */
  ghost predicate Added(s: Store, before: seq<string>, after: seq<string>, name: string) {
    before <= after && Ordered(s, after) &&
    forall b :: b in after <==> b in before || Needs(s, name, b)
  }

  /** The same for the first n names of a list. */
  ghost predicate AddedAll(s: Store, before: seq<string>, after: seq<string>, names: seq<string>, n: nat)
    requires n <= |names|
  {
    before <= after && Ordered(s, after) &&
    forall b :: b in after <==> b in before || exists k :: 0 <= k < n && Needs(s, names[k], b)
  }

  lemma AddedStep(s: Store, p0: seq<string>, p1: seq<string>, p2: seq<string>, names: seq<string>, n: nat)
    requires n < |names| && AddedAll(s, p0, p1, names, n) && Added(s, p1, p2, names[n])
    ensures AddedAll(s, p0, p2, names, n + 1)
  {
    forall b ensures b in p2 <==> b in p0 || exists k :: 0 <= k < n + 1 && Needs(s, names[k], b) {
      if k :| 0 <= k < n + 1 && Needs(s, names[k], b) {
        if k < n {
          assert b in p1;
        }
      }
    }
  }

  /** Inserting a package after its dependencies. */
  lemma InsertAdds(s: Store, p0: seq<string>, p1: seq<string>, name: string)
    requires !ReachesCycle(s, name) && Wanted(s, name) && name !in p0
    requires AddedAll(s, p0, p1, s.manifest[name], |s.manifest[name]|)
    ensures Added(s, p0, p1 + [name], name)
  {
    assert !Leads(s, name, name) by { NeedsSelf(s, name); }
    var deps := s.manifest[name];
    NeedsSelf(s, name);
    if name in p1 {
      var k :| 0 <= k < |deps| && Needs(s, deps[k], name);
      NeedsBackCloses(s, name, deps[k]);
      assert false;
    }
    forall d | d in deps && Wanted(s, d) ensures d in p1 {
      var k :| 0 <= k < |deps| && deps[k] == d;
      NeedsSelf(s, d);
    }
    OrderedAppend(s, p1, name);
    forall b ensures b in p1 + [name] <==> b in p0 || Needs(s, name, b) {
      if b in p1 && b !in p0 {
        var k :| 0 <= k < |deps| && Needs(s, deps[k], b);
        NeedsFirst(s, name, deps[k], b);
      }
      if Needs(s, name, b) && b != name {
        NeedsUnfold(s, name, b);
        var d :| d in deps && Needs(s, d, b);
        var k :| 0 <= k < |deps| && deps[k] == d;
      }
    }
  }

  /** Down the recursion every package on the way leads to the one at hand. */
  lemma LeadsOn(s: Store, visited: set<string>, name: string, d: string)
    requires Wanted(s, name) && Wanted(s, d) && d in s.manifest[name]
    requires forall v :: v in visited ==> Leads(s, v, name)
    ensures forall v :: v in visited + {name} ==> Leads(s, v, d)
  {
    forall v | v in visited + {name} ensures Leads(s, v, d) {
      if v == name {
        assert Chain(s, [name, d]);
      } else {
        var p :| Chain(s, p) && |p| > 1 && p[0] == v && p[|p| - 1] == name;
        assert Chain(s, p + [d]);
      }
    }
  }

  // ------------------------------------------------------------------- termination

  /** The recursion of `process_package` cut off at a depth: None when it goes deeper. */
  function Process(s: Store, depth: nat, pkgs: seq<string>, name: string): Option<seq<string>>
    decreases depth, 0
  {
    if !Wanted(s, name) || name in pkgs then Some(pkgs)
    else if depth == 0 then None
    else
      match ProcessAll(s, depth - 1, pkgs, s.manifest[name], 0)
      case None => None
      case Some(p) => Some(p + [name])
  }

  function ProcessAll(s: Store, depth: nat, pkgs: seq<string>, names: seq<string>, i: nat): Option<seq<string>>
    requires i <= |names|
    decreases depth, |names| - i + 1
  {
    if i == |names| then Some(pkgs)
    else
      match Process(s, depth, pkgs, names[i])
      case None => None
      case Some(p) => ProcessAll(s, depth, p, names, i + 1)
  }

  ghost predicate Clean(s: Store, pkgs: seq<string>) {
    forall b :: b in pkgs ==> !ReachesCycle(s, b)
  }

  /** At no depth is a package done that reaches a cycle. */
  lemma {:induction false} CycleNeverEnds(s: Store, depth: nat, pkgs: seq<string>, name: string)
    requires Clean(s, pkgs)
    ensures var r := Process(s, depth, pkgs, name);
            r.Some? ==> Clean(s, r.value) && !ReachesCycle(s, name)
    decreases depth, 0
  {
    if !Wanted(s, name) {
      NothingNeeded(s, name);
    } else if name !in pkgs && depth > 0 {
      CycleNeverEndsAll(s, depth - 1, pkgs, s.manifest[name], 0);
      if ProcessAll(s, depth - 1, pkgs, s.manifest[name], 0).Some? && ReachesCycle(s, name) {
        CycleBelow(s, name);
      }
    }
  }

  lemma {:induction false} CycleNeverEndsAll(s: Store, depth: nat, pkgs: seq<string>, names: seq<string>, i: nat)
    requires i <= |names| && Clean(s, pkgs)
    ensures var r := ProcessAll(s, depth, pkgs, names, i);
            r.Some? ==> Clean(s, r.value) && forall k :: i <= k < |names| ==> !ReachesCycle(s, names[k])
    decreases depth, |names| - i + 1
  {
    if i < |names| {
      CycleNeverEnds(s, depth, pkgs, names[i]);
      var r := Process(s, depth, pkgs, names[i]);
      if r.Some? {
        CycleNeverEndsAll(s, depth, r.value, names, i + 1);
      }
    }
  }

  lemma VisitShrinks(s: Store, visited: set<string>, name: string)
    requires name in s.manifest && name !in visited
    ensures |s.manifest.Keys - visited| == |s.manifest.Keys - (visited + {name})| + 1
  {
    assert s.manifest.Keys - (visited + {name}) == (s.manifest.Keys - visited) - {name};
  }

  /** What the recursion hands to the dependencies of a package. */
  lemma DependenciesReady(s: Store, visited: set<string>, name: string)
    requires !ReachesCycle(s, name) && Wanted(s, name) && forall v :: v in visited ==> Leads(s, v, name)
    ensures name !in visited && |s.manifest.Keys - visited| == |s.manifest.Keys - (visited + {name})| + 1
    ensures s.manifest.Keys - (visited + {name}) < s.manifest.Keys - visited
    ensures Ready(s, visited + {name}, s.manifest[name])
  {
    assert !Leads(s, name, name) by { NeedsSelf(s, name); }
    VisitShrinks(s, visited, name);
    assert name in s.manifest.Keys - visited;
    var deps := s.manifest[name];
    forall k | 0 <= k < |deps|
      ensures !ReachesCycle(s, deps[k])
      ensures Wanted(s, deps[k]) ==> forall v :: v in visited + {name} ==> Leads(s, v, deps[k])
    {
      if ReachesCycle(s, deps[k]) {
        CycleThroughDependency(s, name, deps[k]);
      }
      if Wanted(s, deps[k]) {
        LeadsOn(s, visited, name, deps[k]);
      }
    }
  }

  ghost predicate Ready(s: Store, visited: set<string>, names: seq<string>) {
    forall k :: 0 <= k < |names| ==>
      !ReachesCycle(s, names[k]) && (Wanted(s, names[k]) ==> forall v :: v in visited ==> Leads(s, v, names[k]))
  }

  /** Without a cycle in reach, the number of packages is depth enough. */
  lemma {:induction false} ProcessEnds(s: Store, visited: set<string>, pkgs: seq<string>, name: string)
    requires !ReachesCycle(s, name)
    requires Wanted(s, name) ==> forall v :: v in visited ==> Leads(s, v, name)
    ensures Process(s, |s.manifest.Keys - visited|, pkgs, name).Some?
    decreases s.manifest.Keys - visited, 1, 0
  {
    if Wanted(s, name) && name !in pkgs {
      DependenciesReady(s, visited, name);
      ProcessEndsAll(s, visited + {name}, pkgs, s.manifest[name], 0);
    }
  }

  lemma {:induction false} ProcessEndsAll(s: Store, visited: set<string>, pkgs: seq<string>, names: seq<string>, i: nat)
    requires i <= |names| && Ready(s, visited, names)
    ensures ProcessAll(s, |s.manifest.Keys - visited|, pkgs, names, i).Some?
    decreases s.manifest.Keys - visited, 2, |names| - i
  {
    if i < |names| {
      ProcessEnds(s, visited, pkgs, names[i]);
      ProcessEndsAll(s, visited, Process(s, |s.manifest.Keys - visited|, pkgs, names[i]).value, names, i + 1);
    }
  }

  /** Processing a request ends exactly when it reaches no cycle of dependencies. */
  lemma EndsWithoutCycle(s: Store, name: string)
    ensures (exists depth: nat :: Process(s, depth, [], name).Some?) <==> !ReachesCycle(s, name)
  {
    if depth: nat :| Process(s, depth, [], name).Some? {
      CycleNeverEnds(s, depth, [], name);
    }
    if !ReachesCycle(s, name) {
      ProcessEnds(s, {}, [], name);
    }
  }

  /** The request loop of `install_packages`, which stops at the first unknown name, cut off
      at a depth: the list and whether it failed. */
  function ProcessRequests(s: Store, depth: nat, pkgs: seq<string>, requests: seq<string>, i: nat)
      : Option<(seq<string>, bool)>
    requires i <= |requests|
    decreases |requests| - i
  {
    if i == |requests| then Some((pkgs, false))
    else
      match Process(s, depth, pkgs, requests[i])
      case None => None
      case Some(p) => if Known(s, requests[i]) then ProcessRequests(s, depth, p, requests, i + 1) else Some((p, true))
  }

  /** No request up to the first unknown one reaches a cycle. */
  ghost predicate Untangled(s: Store, requests: seq<string>) {
    forall k :: 0 <= k < |requests| && AllKnown(s, requests[..k]) ==> !ReachesCycle(s, requests[k])
  }

  ghost predicate AllKnown(s: Store, requests: seq<string>) {
    forall k :: 0 <= k < |requests| ==> Known(s, requests[k])
  }

  lemma KnownOnwards(s: Store, requests: seq<string>, i: nat)
    requires i < |requests| && AllKnown(s, requests[..i])
    ensures AllKnown(s, requests[..i + 1]) <==> Known(s, requests[i])
    ensures AllKnown(s, requests) ==> Known(s, requests[i])
  {
    assert requests[..i + 1][i] == requests[i];
    assert forall k :: 0 <= k < i ==> requests[..i + 1][k] == requests[..i][k];
  }

  lemma {:induction false} TangledNeverEnds(
      s: Store, depth: nat, pkgs: seq<string>, requests: seq<string>, i: nat, k: nat)
    requires i <= k < |requests| && AllKnown(s, requests[..k]) && ReachesCycle(s, requests[k]) && Clean(s, pkgs)
    ensures ProcessRequests(s, depth, pkgs, requests, i).None?
    decreases |requests| - i
  {
    CycleNeverEnds(s, depth, pkgs, requests[i]);
    var r := Process(s, depth, pkgs, requests[i]);
    if i < k && r.Some? {
      assert Known(s, requests[..k][i]);
      TangledNeverEnds(s, depth, r.value, requests, i + 1, k);
    }
  }

  lemma {:induction false} UntangledEnds(s: Store, pkgs: seq<string>, requests: seq<string>, i: nat)
    requires i <= |requests| && Untangled(s, requests) && AllKnown(s, requests[..i])
    ensures ProcessRequests(s, |s.manifest.Keys|, pkgs, requests, i).Some?
    decreases |requests| - i
  {
    if i < |requests| {
      ProcessEnds(s, {}, pkgs, requests[i]);
      assert s.manifest.Keys - {} == s.manifest.Keys;
      if Known(s, requests[i]) {
        UntangledEnds(s, Process(s, |s.manifest.Keys|, pkgs, requests[i]).value, requests, i + 1);
      }
    }
  }

  /** The request loop ends exactly when no request up to the first unknown one reaches a cycle. */
  lemma RequestsEnd(s: Store, requests: seq<string>)
    ensures (exists depth: nat :: ProcessRequests(s, depth, [], requests, 0).Some?) <==> Untangled(s, requests)
  {
    if Untangled(s, requests) {
      UntangledEnds(s, [], requests, 0);
    } else {
      var k :| 0 <= k < |requests| && AllKnown(s, requests[..k]) && ReachesCycle(s, requests[k]);
      forall depth: nat ensures ProcessRequests(s, depth, [], requests, 0).None? {
        TangledNeverEnds(s, depth, [], requests, 0, k);
      }
    }
  }

  /** The package list being built, `pkgs`. */
  class Resolver {
    const store: Store
    var pkgs: seq<string>

    constructor (store: Store)
      ensures this.store == store && pkgs == []
    {
      this.store := store;
      pkgs := [];
    }

    /** `list_contains`. */
    method ListContains(key: string) returns (found: bool)
      ensures found <==> key in pkgs
    {
      var i := 0;
      while i < |pkgs|
        invariant 0 <= i <= |pkgs| && key !in pkgs[..i]
      {
        if pkgs[i] == key {
          return true;
        }
        i := i + 1;
      }
      return false;
    }

    /** `process_package`; `visited` are the callers' packages, which makes the
        recursion end on every manifest without a cycle. */
    method ProcessPackage(name: string, ghost visited: set<string>) returns (failed: bool)
      requires !ReachesCycle(store, name) && Ordered(store, pkgs)
      requires Wanted(store, name) ==> forall v :: v in visited ==> Leads(store, v, name)
      modifies this
      ensures Added(store, old(pkgs), pkgs, name)
      ensures failed <==> !Known(store, name)
      ensures failed <==> name == "" || (name !in store.installed && name !in store.manifest)
      ensures name != "" && name in store.manifest && name !in store.installed ==> name in pkgs
      ensures Process(store, |store.manifest.Keys - visited|, old(pkgs), name) == Some(pkgs)
      decreases store.manifest.Keys - visited, 1
    {
      if !Wanted(store, name) {
        NothingNeeded(store, name);
      }
      if |name| == 0 {
        return true;
      }
      if name in store.installed {
        return false;
      }
      var listed := ListContains(name);
      if listed {
        ListedAddsNothing(store, pkgs, name);
        return false;
      }
      if name !in store.manifest {
        return true;
      }
      DependenciesReady(store, visited, name);
      ProcessDependencies(store.manifest[name], visited + {name});
      InsertAdds(store, old(pkgs), pkgs, name);
      pkgs := pkgs + [name];
      return false;
    }

    /** The loop over the dependency field (apps/msk.c:295-298); what a dependency returns is ignored. */
    method ProcessDependencies(names: seq<string>, ghost visited: set<string>)
      requires Ordered(store, pkgs) && Ready(store, visited, names)
      modifies this
      ensures AddedAll(store, old(pkgs), pkgs, names, |names|)
      ensures ProcessAll(store, |store.manifest.Keys - visited|, old(pkgs), names, 0) == Some(pkgs)
      decreases store.manifest.Keys - visited, 2
    {
      ghost var depth := |store.manifest.Keys - visited|;
      var i := 0;
      while i < |names|
        invariant 0 <= i <= |names| && AddedAll(store, old(pkgs), pkgs, names, i)
        invariant ProcessAll(store, depth, old(pkgs), names, 0) == ProcessAll(store, depth, pkgs, names, i)
      {
        ghost var before := pkgs;
        var ignored := ProcessPackage(names[i], visited);
        AddedStep(store, old(pkgs), before, pkgs, names, i);
        i := i + 1;
      }
    }

    /** The request loop of `install_packages`. */
    method ResolveRequests(requests: seq<string>) returns (failed: bool)
      requires pkgs == [] && Untangled(store, requests)
      modifies this
      ensures failed <==> !AllKnown(store, requests)
      ensures !failed ==> AddedAll(store, [], pkgs, requests, |requests|)
      ensures ProcessRequests(store, |store.manifest.Keys|, [], requests, 0) == Some((pkgs, failed))
    {
      ghost var depth := |store.manifest.Keys|;
      assert store.manifest.Keys - {} == store.manifest.Keys;
      var i := 0;
      while i < |requests|
        invariant 0 <= i <= |requests| && AddedAll(store, [], pkgs, requests, i) && AllKnown(store, requests[..i])
        invariant ProcessRequests(store, depth, [], requests, 0) == ProcessRequests(store, depth, pkgs, requests, i)
      {
        ghost var before := pkgs;
        KnownOnwards(store, requests, i);
        var unknown := ProcessPackage(requests[i], {});
        assert Process(store, depth, before, requests[i]) == Some(pkgs);
        if unknown {
          return true;
        }
        AddedStep(store, [], before, pkgs, requests, i);
        i := i + 1;
      }
      assert requests[..i] == requests;
      return false;
    }
  }

  lemma NothingNeeded(s: Store, name: string)
    requires !Wanted(s, name)
    ensures forall b :: !Needs(s, name, b)
  {
  }

  lemma ListedAddsNothing(s: Store, pkgs: seq<string>, name: string)
    requires Ordered(s, pkgs) && name in pkgs
    ensures Added(s, pkgs, pkgs, name)
  {
    forall b | Needs(s, name, b) ensures b in pkgs {
      OrderedHasNeeds(s, pkgs, name, b);
    }
  }
}
