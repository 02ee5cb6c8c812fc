/**
 The test catalogue: tests/make_catalog.py generates index tables, one for each
 scheduler plugin, and tests/runner.c runs the tests of one plugin.

 The generated C declarations are values here: a suite row holds the table and the
 count that its names refer to.  Whether a test passes is a parameter.
 */
module Catalog {
  import opened CLib

  datatype TestCase = TestCase(fn: string, plugins: seq<string>, desc: string)

  /** A row of `testsuite[]`. */
  datatype Suite = Suite(plugin: string, testcases: seq<nat>, numCases: nat)

  /** `test_catalog[]` and `testsuite[]`. */
  datatype Catalogue = Catalogue(entries: seq<(string, string)>, suites: seq<Suite>)

  // ----- What has to be selected -----

  /** Tagged with the plugin, for all, or for every LITMUS^RT plugin and so not for plain Linux. */
  predicate Applicable(tc: TestCase, p: string) {
    p in tc.plugins || "ALL" in tc.plugins || ("LITMUS" in tc.plugins && p != "LINUX")
  }

  /** The applicable tests among the first `n`, in catalogue order. */
  function Selected(tests: seq<TestCase>, p: string, n: nat): (r: seq<nat>)
    requires n <= |tests|
    ensures forall i :: i in r <==> 0 <= i < n && Applicable(tests[i], p)
    ensures forall a, b :: 0 <= a < b < |r| ==> r[a] < r[b]
  {
    if n == 0 then []
    else
      var before := Selected(tests, p, n - 1);
      if Applicable(tests[n - 1], p) then
        assert forall a :: 0 <= a < |before| ==> before[a] in before;
        before + [n - 1]
      else before
  }

  ghost predicate Mentioned(tests: seq<TestCase>, p: string) {
    exists i :: 0 <= i < |tests| && p in tests[i].plugins
  }

  /** `d` is `p` with every '_' replaced by '-' and nothing else changed. */
  ghost predicate IsDashed(d: string, p: string) {
    && |d| == |p|
    && (forall i :: 0 <= i < |p| && p[i] == '_' ==> d[i] == '-')
    && (forall i :: 0 <= i < |p| && p[i] != '_' ==> d[i] == p[i])
  }

  /** `p.replace('_', '-')` */
  function Dashed(p: string): (d: string)
    ensures IsDashed(d, p)
  {
    seq(|p|, i requires 0 <= i < |p| => if p[i] == '_' then '-' else p[i])
  }

  lemma DashedIsTheOnlyOne(d: string, p: string)
    ensures IsDashed(d, p) <==> d == Dashed(p)
  {
    if IsDashed(d, p) {
      assert forall i :: 0 <= i < |p| ==> d[i] == Dashed(p)[i];
    }
  }

  lemma DashedPsnEdf()
    ensures Dashed("PSN_EDF") == "PSN-EDF"
  {
    assert IsDashed("PSN-EDF", "PSN_EDF");
    DashedIsTheOnlyOne("PSN-EDF", "PSN_EDF");
  }

  /** Which plugins a test runs for: every one for ALL, every one but LINUX for LITMUS, and otherwise the named ones. */
  lemma WhatTagsMean(tc: TestCase, p: string)
    ensures "ALL" in tc.plugins ==> Applicable(tc, p)
    ensures p in tc.plugins ==> Applicable(tc, p)
    ensures tc.plugins == ["LITMUS"] && p != "LITMUS" ==> (Applicable(tc, p) <==> p != "LINUX")
    ensures "ALL" !in tc.plugins && "LITMUS" !in tc.plugins && p !in tc.plugins ==> !Applicable(tc, p)
    ensures "ALL" !in tc.plugins && "LINUX" !in tc.plugins ==> !Applicable(tc, "LINUX")
  {
  }

  // ----- make_catalog.py -----

  lemma MentionedStep(tests: seq<TestCase>, i: nat, p: string)
    requires i < |tests|
    ensures Mentioned(tests[..i + 1], p) <==> Mentioned(tests[..i], p) || p in tests[i].plugins
  {
    if Mentioned(tests[..i], p) {
      var k :| 0 <= k < i && p in tests[..i][k].plugins;
      assert p in tests[..i + 1][k].plugins;
    }
    if p in tests[i].plugins {
      assert p in tests[..i + 1][i].plugins;
    }
    if Mentioned(tests[..i + 1], p) {
      var k :| 0 <= k < i + 1 && p in tests[..i + 1][k].plugins;
      if k < i {
        assert p in tests[..i][k].plugins;
      }
    }
  }

  /** The set of plugins: filled from all tags, then pruned of the two that are no plugins. */
  method CollectPlugins(tests: seq<TestCase>) returns (plugins: set<string>)
    ensures forall p :: p in plugins <==> Mentioned(tests, p) && p != "ALL" && p != "LITMUS"
  {
    plugins := {};
    for i := 0 to |tests|
      invariant forall p :: p in plugins <==> Mentioned(tests[..i], p)
    {
      ghost var before := plugins;
      var tags := tests[i].plugins;
      for j := 0 to |tags|
        invariant forall p :: p in plugins <==> p in before || p in tags[..j]
      {
        plugins := plugins + {tags[j]};
      }
      forall p ensures Mentioned(tests[..i + 1], p) <==> Mentioned(tests[..i], p) || p in tags {
        MentionedStep(tests, i, p);
      }
    }
    assert tests[..|tests|] == tests;
    plugins := plugins - {"ALL"};
    plugins := plugins - {"LITMUS"};
  }

  ghost predicate IsOrderOf(order: seq<string>, plugins: set<string>) {
    && (forall i, j :: 0 <= i < j < |order| ==> order[i] != order[j])
    && (forall p :: p in order <==> p in plugins)
  }

  /** Iterating over a set: some order, the same one each time as long as the set stays unchanged. */
  method SomeOrder(plugins: set<string>) returns (order: seq<string>)
    ensures IsOrderOf(order, plugins)
  {
    var rest := plugins;
    order := [];
    while rest != {}
      invariant rest <= plugins && IsOrderOf(order, plugins - rest)
      decreases rest
    {
      var p :| p in rest;
      rest := rest - {p};
      order := order + [p];
    }
  }

  /** The table of one plugin and its count. */
  method TableFor(tests: seq<TestCase>, p: string) returns (table: seq<nat>, count: nat)
    ensures table == Selected(tests, p, |tests|) && count == |table|
  {
    table, count := [], 0;
    for i := 0 to |tests|
      invariant table == Selected(tests, p, i) && count == |table|
    {
      if p in tests[i].plugins || "ALL" in tests[i].plugins || ("LITMUS" in tests[i].plugins && p != "LINUX") {
        table := table + [i];
        count := count + 1;
      }
    }
  }

  /** One suite row for every plugin, with all and only its applicable tests. */
  ghost predicate IsCatalogueOf(c: Catalogue, tests: seq<TestCase>, order: seq<string>) {
    && |c.entries| == |tests| && (forall i :: 0 <= i < |tests| ==> c.entries[i] == (tests[i].fn, tests[i].desc))
    && |c.suites| == |order|
    && forall i :: 0 <= i < |order| ==>
         c.suites[i] == Suite(Dashed(order[i]), Selected(tests, order[i], |tests|),
                              |Selected(tests, order[i], |tests|)|)
  }

  method CreateTcTables(tests: seq<TestCase>) returns (c: Catalogue, order: seq<string>)
    ensures IsCatalogueOf(c, tests, order)
    ensures forall i, j :: 0 <= i < j < |order| ==> order[i] != order[j]
    ensures forall p :: p in order <==> Mentioned(tests, p) && p != "ALL" && p != "LITMUS"
    ensures |c.entries| == |tests| && forall i :: 0 <= i < |tests| ==>
              c.entries[i].0 == tests[i].fn && c.entries[i].1 == tests[i].desc
    ensures |c.suites| == |order| && forall i :: 0 <= i < |order| ==>
              && IsDashed(c.suites[i].plugin, order[i])
              && c.suites[i].numCases == |c.suites[i].testcases|
              && forall t :: t in c.suites[i].testcases <==> 0 <= t < |tests| && Applicable(tests[t], order[i])
  {
    var plugins := CollectPlugins(tests);
    order := SomeOrder(plugins);
    var entries := [];
    for i := 0 to |tests|
      invariant |entries| == i && forall k :: 0 <= k < i ==> entries[k] == (tests[k].fn, tests[k].desc)
    {
      entries := entries + [(tests[i].fn, tests[i].desc)];
    }
    var suites := [];
    for i := 0 to |order|
      invariant |suites| == i
      invariant forall k :: 0 <= k < i ==>
        suites[k] == Suite(Dashed(order[k]), Selected(tests, order[k], |tests|), |Selected(tests, order[k], |tests|)|)
    {
      var table, count := TableFor(tests, order[i]);
      suites := suites + [Suite(Dashed(order[i]), table, count)];
    }
    c := Catalogue(entries, suites);
  }

  // ----- runner.c -----

  function CountPassed(ran: seq<nat>, passes: nat -> bool): (n: nat)
    ensures n <= |ran|
    ensures n == |ran| <==> forall i :: 0 <= i < |ran| ==> passes(ran[i])
  {
    if ran == [] then 0
    else CountPassed(ran[..|ran| - 1], passes) + if passes(ran[|ran| - 1]) then 1 else 0
  }

  ghost function PassedPlaces(ran: seq<nat>, passes: nat -> bool): set<int> {
    set i | 0 <= i < |ran| && passes(ran[i])
  }

  lemma OnePlaceMore(ran: seq<nat>, passes: nat -> bool)
    requires ran != []
    ensures var n := |ran| - 1;
      && PassedPlaces(ran, passes) == PassedPlaces(ran[..n], passes) + (if passes(ran[n]) then {n} else {})
      && n !in PassedPlaces(ran[..n], passes)
  {
  }

  /** The number that is printed and compared: how many of the tests that ran have passed. */
  lemma {:induction false} CountPassedIsANumberOfTests(ran: seq<nat>, passes: nat -> bool)
    ensures CountPassed(ran, passes) == |PassedPlaces(ran, passes)|
  {
    if ran == [] {
      assert PassedPlaces(ran, passes) == {};
    } else {
      hide PassedPlaces;
      CountPassedIsANumberOfTests(ran[..|ran| - 1], passes);
      OnePlaceMore(ran, passes);
    }
  }

  /** The indices stay inside the arrays that the runner reads. */
  ghost predicate InBounds(c: Catalogue) {
    forall s :: s in c.suites ==>
      s.numCases <= |s.testcases| && forall t :: t in s.testcases ==> t < |c.entries|
  }

  /** `run_tests` */
  method RunTests(c: Catalogue, testidx: seq<nat>, numTests: nat, passes: nat -> bool)
    returns (ok: nat, ran: seq<nat>)
    requires numTests <= |testidx| && forall t :: t in testidx ==> t < |c.entries|
    ensures ran == testidx[..numTests] && ok == CountPassed(ran, passes)
  {
    ok, ran := 0, [];
    for i := 0 to numTests
      invariant ran == testidx[..i] && ok == CountPassed(ran, passes)
    {
      var idx := testidx[i];
      assert idx in testidx;
      var entry := c.entries[idx];
      if passes(idx) {
        ok := ok + 1;
      }
      assert (ran + [idx])[..i] == ran;
      ran := ran + [idx];
    }
  }

  /** Suite `i` is the first one with this name. */
  ghost predicate FirstNamed(c: Catalogue, name: string, i: nat) {
    && i < |c.suites| && c.suites[i].plugin == name
    && forall k :: 0 <= k < i ==> c.suites[k].plugin != name
  }

  /** What `main` does: the tests it runs and its exit code. */
  ghost predicate RunnerResult(c: Catalogue, plugin: Option<string>, passes: nat -> bool, code: int, ran: seq<nat>) {
    || (&& (plugin.None? || forall i :: 0 <= i < |c.suites| ==> c.suites[i].plugin != plugin.value)
        && code == 1 && ran == [])
    || (&& plugin.Some?
        && exists i: nat :: FirstNamed(c, plugin.value, i)
             && ran == c.suites[i].testcases[..Min(c.suites[i].numCases, |c.suites[i].testcases|)]
             && code == if CountPassed(ran, passes) == c.suites[i].numCases then 0 else 3)
  }

  /** The part of `main` that looks up the suite; `usage` exits with 1. */
  method RunPlugin(c: Catalogue, plugin: Option<string>, passes: nat -> bool) returns (code: int, ran: seq<nat>)
    requires InBounds(c)
    ensures RunnerResult(c, plugin, passes, code, ran)
    ensures plugin.None? || (forall i :: 0 <= i < |c.suites| ==> c.suites[i].plugin != plugin.value) <==> code == 1
    ensures code == 1 ==> ran == []
  {
    if plugin.None? {
      return 1, [];
    }
    for i := 0 to |c.suites|
      invariant forall k :: 0 <= k < i ==> c.suites[k].plugin != plugin.value
    {
      if c.suites[i].plugin == plugin.value {
        var s := c.suites[i];
        assert s in c.suites;
        var ok;
        ok, ran := RunTests(c, s.testcases, s.numCases, passes);
        assert FirstNamed(c, plugin.value, i);
        return if ok == s.numCases then 0 else 3, ran;
      }
    }
    return 1, [];
  }

  // ----- End to end -----

  lemma GeneratedIsInBounds(c: Catalogue, tests: seq<TestCase>, order: seq<string>)
    requires IsCatalogueOf(c, tests, order)
    ensures InBounds(c)
  {
    forall s | s in c.suites
      ensures s.numCases <= |s.testcases| && forall t :: t in s.testcases ==> t < |c.entries|
    {
      var i :| 0 <= i < |c.suites| && c.suites[i] == s;
      assert s.testcases == Selected(tests, order[i], |tests|);
    }
  }

  /** An unknown plugin runs nothing; plugins with the same dashed name share the tests of the first of them. */
  lemma WhichTestsRun(tests: seq<TestCase>, order: seq<string>, c: Catalogue, name: string,
                      passes: nat -> bool, code: int, ran: seq<nat>) returns (i: nat)
    requires IsCatalogueOf(c, tests, order) && RunnerResult(c, Some(name), passes, code, ran)
    ensures code == 1 <==> forall k :: 0 <= k < |order| ==> Dashed(order[k]) != name
    ensures code == 1 ==> ran == []
    ensures code != 1 ==>
              && i < |order| && Dashed(order[i]) == name && (forall k :: 0 <= k < i ==> Dashed(order[k]) != name)
              && ran == Selected(tests, order[i], |tests|)
              && code == if CountPassed(ran, passes) == |ran| then 0 else 3
  {
    hide Dashed, Selected;
    assert forall k :: 0 <= k < |order| ==> c.suites[k].plugin == Dashed(order[k]);
    i := 0;
    if code != 1 {
      var f: nat :| FirstNamed(c, name, f)
        && ran == c.suites[f].testcases[..Min(c.suites[f].numCases, |c.suites[f].testcases|)]
        && code == if CountPassed(ran, passes) == c.suites[f].numCases then 0 else 3;
      i := f;
      assert ran == Selected(tests, order[i], |tests|);
    }
  }

  lemma AllSelectedPass(tests: seq<TestCase>, p: string, passes: nat -> bool)
    ensures var ran := Selected(tests, p, |tests|);
      CountPassed(ran, passes) == |ran| <==>
      forall i :: 0 <= i < |tests| && Applicable(tests[i], p) ==> passes(i)
  {
    hide CountPassed, Applicable;
    var ran := Selected(tests, p, |tests|);
    assert forall a :: 0 <= a < |ran| ==> ran[a] in ran;
    if exists t :: 0 <= t < |tests| && Applicable(tests[t], p) && !passes(t) {
      var t :| 0 <= t < |tests| && Applicable(tests[t], p) && !passes(t);
      assert t in ran;
    }
  }

  /**
   For every list of tests and every plugin `p` whose name with dashes, `name`, is no
   other plugin's: running the generated catalogue for `name` runs exactly the tests
   that are applicable to `p`, once each and in catalogue order, and the exit code is 0
   if and only if all of them pass.
   */
  lemma RunsExactlyTheApplicable(tests: seq<TestCase>, order: seq<string>, c: Catalogue, p: string, name: string,
                                 passes: nat -> bool, code: int, ran: seq<nat>)
    requires IsCatalogueOf(c, tests, order) && p in order && IsDashed(name, p)
    requires forall q :: q in order && IsDashed(name, q) ==> q == p
    requires RunnerResult(c, Some(name), passes, code, ran)
    ensures forall i :: i in ran <==> 0 <= i < |tests| && Applicable(tests[i], p)
    ensures forall a, b :: 0 <= a < b < |ran| ==> ran[a] < ran[b]
    ensures code == if forall i :: 0 <= i < |tests| && Applicable(tests[i], p) ==> passes(i) then 0 else 3
  {
    hide Dashed, IsDashed, Selected, RunnerResult, IsCatalogueOf, CountPassed, Applicable;
    var i := WhichTestsRun(tests, order, c, name, passes, code, ran);
    var k :| 0 <= k < |order| && order[k] == p;
    DashedIsTheOnlyOne(name, order[k]);
    assert code != 1;
    DashedIsTheOnlyOne(name, order[i]);
    assert order[i] in order;
    AllSelectedPass(tests, p, passes);
  }

  /**
   Names without '-' keep distinct dashed names.  The tables are named after the
   plugins, so in a catalogue that compiles all names are of this kind.
   */
  lemma DashedIsInjective(p: string, q: string)
    requires '-' !in p && '-' !in q && Dashed(p) == Dashed(q)
    ensures p == q
  {
    assert |p| == |Dashed(p)| == |q|;
    forall i | 0 <= i < |p| ensures p[i] == q[i] {
      assert Dashed(p)[i] == Dashed(q)[i];
      assert p[i] in p && q[i] in q;
    }
  }
}
