/** Grouping stage (groupByService): a flat instance list becomes a map from
    service name to that service's instances, in input order. */
module Grouping {
  import opened Registry

  /** The service names that occur in `s`. */
  function Names(s: seq<Instance>): set<string>
  {
    set x | x in s :: x.serviceName
  }

  /** The instances of `s` whose service name is `name`, in their order in `s`. */
  function Bucket(s: seq<Instance>, name: string): seq<Instance>
  {
    if s == [] then []
    else Bucket(s[..|s| - 1], name) + (if s[|s| - 1].serviceName == name then [s[|s| - 1]] else [])
  }

  /** The candidate map the grouping stage must produce. */
  function Grouped(s: seq<Instance>): Table
  {
    map name | name in Names(s) :: Bucket(s, name)
  }

  /** groupByService: Load the bucket of each instance's service, append the
      instance (to a fresh slice when the service is new), Store it back. */
  method GroupByService(instances: seq<Instance>) returns (servMap: Table)
    ensures servMap == Grouped(instances)
  {
    servMap := map[];
    for i := 0 to |instances|
      invariant servMap == Grouped(instances[..i])
    {
      var ins := instances[i];
      var infos: seq<Instance>;
      if ins.serviceName !in servMap {
        infos := [] + [ins];
      } else {
        infos := servMap[ins.serviceName] + [ins];
      }
      servMap := servMap[ins.serviceName := infos];
      assert instances[..i + 1] == instances[..i] + [ins];
      GroupedSnoc(instances[..i], ins);
    }
    assert instances[..|instances|] == instances;
  }

  /** A service that does not occur has an empty bucket. */
  lemma {:induction false} BucketOfAbsentName(s: seq<Instance>, name: string)
    requires name !in Names(s)
    ensures Bucket(s, name) == []
  {
    if s != [] {
      var p := s[..|s| - 1];
      assert s == p + [s[|s| - 1]];
      assert Names(p) <= Names(s);
      BucketOfAbsentName(p, name);
    }
  }

  /** One loop step: appending `x` to the input appends `x` to its own bucket
      (creating the bucket if needed) and leaves every other bucket alone. */
  lemma GroupedSnoc(s: seq<Instance>, x: Instance)
    ensures var g := Grouped(s);
            var n := x.serviceName;
            Grouped(s + [x]) == g[n := (if n in g then g[n] else []) + [x]]
  {
    var t := s + [x];
    var n := x.serviceName;
    var g := Grouped(s);
    assert t[..|t| - 1] == s;
    assert Names(t) == Names(s) + {n} by {
      forall y | y in t ensures y in s || y == x { }
      forall y | y in s ensures y in t { }
    }
    if n !in Names(s) {
      BucketOfAbsentName(s, n);
    }
    var expected := g[n := (if n in g then g[n] else []) + [x]];
    assert Grouped(t).Keys == expected.Keys;
    forall m | m in Names(t)
      ensures Grouped(t)[m] == expected[m]
    {
      assert Bucket(t, m) == Bucket(s, m) + (if m == n then [x] else []);
    }
  }

  /** Every bucket holds only instances of its own service, taken from the input. */
  lemma {:induction false} BucketMembers(s: seq<Instance>, name: string)
    ensures forall y :: y in Bucket(s, name) ==> y.serviceName == name && y in s
  {
    if s != [] {
      var p := s[..|s| - 1];
      assert s == p + [s[|s| - 1]];
      BucketMembers(p, name);
    }
  }

  /** No instance is dropped or duplicated: each instance occurs in its
      service's bucket exactly as often as in the input, and in no other bucket. */
  lemma {:induction false} BucketMultiplicity(s: seq<Instance>, name: string)
    ensures forall y :: multiset(Bucket(s, name))[y] == if y.serviceName == name then multiset(s)[y] else 0
  {
    if s != [] {
      var p := s[..|s| - 1];
      var x := s[|s| - 1];
      assert s == p + [x];
      BucketMultiplicity(p, name);
      assert multiset(s) == multiset(p) + multiset{x};
    }
  }

  /** `a` can be obtained from `b` by deleting elements: relative order is kept. */
  ghost predicate SubsequenceOf<T>(a: seq<T>, b: seq<T>)
    decreases |b|
  {
    if a == [] then true
    else if b == [] then false
    else (a[|a| - 1] == b[|b| - 1] && SubsequenceOf(a[..|a| - 1], b[..|b| - 1]))
         || SubsequenceOf(a, b[..|b| - 1])
  }

  /** Each bucket keeps the input's relative order of its instances. */
  lemma {:induction false} BucketKeepsOrder(s: seq<Instance>, name: string)
    ensures SubsequenceOf(Bucket(s, name), s)
  {
    if s != [] {
      var p := s[..|s| - 1];
      BucketKeepsOrder(p, name);
      var b := Bucket(p, name);
      assert s[..|s| - 1] == p;
      if s[|s| - 1].serviceName == name {
        assert Bucket(s, name) == b + [s[|s| - 1]];
        assert (b + [s[|s| - 1]])[..|b|] == b;
      } else {
        assert Bucket(s, name) == b;
      }
    }
  }

  /** The output's keys are exactly the services that occur in the input, and
      no key maps to an empty bucket. */
  lemma {:induction false} GroupedKeys(s: seq<Instance>)
    ensures Grouped(s).Keys == Names(s)
    ensures forall name :: name in Grouped(s) ==> Grouped(s)[name] != []
  {
    forall name | name in Names(s)
      ensures Bucket(s, name) != []
    {
      var x :| x in s && x.serviceName == name;
      BucketMultiplicity(s, name);
      assert multiset(s)[x] > 0;
    }
  }

  /** Sum of the bucket lengths of a table. */
  ghost function TotalSize(m: Table): nat
    decreases m.Keys
  {
    if m == map[] then 0
    else
      var k :| k in m;
      |m[k]| + TotalSize(m - {k})
  }

  /** TotalSize does not depend on which key is taken out first. */
  lemma {:induction false} TotalSizeRemove(m: Table, k: string)
    requires k in m
    ensures TotalSize(m) == |m[k]| + TotalSize(m - {k})
    decreases m.Keys
  {
    var k0 :| k0 in m && TotalSize(m) == |m[k0]| + TotalSize(m - {k0});
    if k0 != k {
      TotalSizeRemove(m - {k0}, k);
      TotalSizeRemove(m - {k}, k0);
      assert m - {k0} - {k} == m - {k} - {k0};
    }
  }

  /** The bucket lengths sum to the input length. */
  lemma {:induction false} GroupedTotalSize(s: seq<Instance>)
    ensures TotalSize(Grouped(s)) == |s|
  {
    if s != [] {
      var p := s[..|s| - 1];
      var x := s[|s| - 1];
      var n := x.serviceName;
      assert s == p + [x];
      GroupedTotalSize(p);
      GroupedSnoc(p, x);
      var g := Grouped(p);
      TotalSizeAppend(g, n, x);
    }
  }

  /** Appending one instance to one bucket adds one to the total size. */
  lemma TotalSizeAppend(g: Table, n: string, x: Instance)
    ensures TotalSize(g[n := (if n in g then g[n] else []) + [x]]) == TotalSize(g) + 1
  {
    var b := if n in g then g[n] else [];
    var g' := g[n := b + [x]];
    TotalSizeRemove(g', n);
    assert g' - {n} == g - {n};
    if n in g {
      TotalSizeRemove(g, n);
    } else {
      assert g - {n} == g;
    }
  }

  /** Grouping a single instance gives one bucket holding it. */
  lemma GroupedSingle(x: Instance)
    ensures Grouped([x]) == map[x.serviceName := [x]]
  {
    assert Grouped([]) == map[];
    GroupedSnoc([], x);
    assert [] + [x] == [x];
  }

  /** The worked example: [A1, B2, A3] groups to {A: [A1, A3], B: [B2]}. */
  lemma GroupingExample()
    ensures var a1, b2, a3 := Instance("A", "1"), Instance("B", "2"), Instance("A", "3");
            Grouped([a1, b2, a3]) == map["A" := [a1, a3], "B" := [b2]]
  {
    var a1, b2, a3 := Instance("A", "1"), Instance("B", "2"), Instance("A", "3");
    var s := [a1, b2, a3];
    assert "A" != "B" by { assert "A"[0] != "B"[0]; }
    assert s[..2] == [a1, b2] && [a1, b2][..1] == [a1] && [a1][..0] == [];
    assert Names(s) == {"A", "B"};
    assert Bucket([a1], "A") == [a1] && Bucket([a1], "B") == [];
    assert Bucket([a1, b2], "A") == [a1] && Bucket([a1, b2], "B") == [b2];
    assert Bucket(s, "A") == [a1] + [a3] == [a1, a3];
    assert Bucket(s, "B") == [b2];
  }
}
