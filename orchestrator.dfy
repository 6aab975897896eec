/**
 * The top level of export_ip_pool: one task per configured proxy (a single
 * direct task when none is configured), every task's GetAll folded into one
 * set by the aggregator.
 *
 * The goroutines, the concurrency gate and the result channel are replaced by
 * running the tasks one after another and delivering their results to the
 * aggregator in an arbitrary order given as `arrival`.
 */
module Orchestrator {
  import opened Task
  import opened LogContext

  /** firstNotEmpty: the first non-empty argument, or "" when there is none. */
  function FirstNotEmpty(elems: seq<string>): (r: string)
    ensures r == "" <==> forall k :: 0 <= k < |elems| ==> elems[k] == ""
    ensures r != "" ==> exists k :: 0 <= k < |elems| && elems[k] == r && forall j :: 0 <= j < k ==> elems[j] == ""
  {
    if elems == [] then ""
    else if |elems[0]| > 0 then elems[0]
    else
      var r := FirstNotEmpty(elems[1..]);
      assert r != "" ==> exists k :: 0 < k < |elems| && elems[k] == r && forall j :: 0 <= j < k ==> elems[j] == "" by {
        if r != "" {
          var k' :| 0 <= k' < |elems[1..]| && elems[1..][k'] == r && forall j :: 0 <= j < k' ==> elems[1..][j] == "";
          assert elems[k' + 1] == r;
          assert forall j :: 0 <= j < k' + 1 ==> elems[j] == "" by {
            forall j | 0 <= j < k' + 1 ensures elems[j] == "" {
              if j > 0 { assert elems[j] == elems[1..][j - 1]; }
            }
          }
        }
      }
      r
  }

  /** The proxy list the tasks are built from: the configured one, or a single empty address. */
  function DefaultProxies(configured: seq<string>): seq<string>
  {
    if |configured| == 0 then [""] else configured
  }

  /** The union of all task results. */
  function UnionAll(results: seq<seq<string>>): set<string>
  {
    set i, j | 0 <= i < |results| && 0 <= j < |results[i]| :: results[i][j]
  }

  lemma UnionAllSnoc(results: seq<seq<string>>, r: seq<string>)
    ensures UnionAll(results + [r]) == UnionAll(results) + (set x | x in r)
  {
    var rs := results + [r];
    forall x | x in UnionAll(rs) ensures x in UnionAll(results) + (set x | x in r) {
      var i, j :| 0 <= i < |rs| && 0 <= j < |rs[i]| && rs[i][j] == x;
      if i < |results| {
        assert results[i][j] == x;
      }
    }
    forall x | x in (set x | x in r) ensures x in UnionAll(rs) {
      var j :| 0 <= j < |r| && r[j] == x;
      assert rs[|results|][j] == x;
    }
    forall x | x in UnionAll(results) ensures x in UnionAll(rs) {
      var i, j :| 0 <= i < |results| && 0 <= j < |results[i]| && results[i][j] == x;
      assert rs[i][j] == x;
    }
  }

  /** A value is in the union exactly when some task result holds it. */
  lemma UnionMembers(results: seq<seq<string>>, x: string)
    ensures x in UnionAll(results) <==> exists i :: 0 <= i < |results| && x in results[i]
  {
    if exists i :: 0 <= i < |results| && x in results[i] {
      var i :| 0 <= i < |results| && x in results[i];
      var j :| 0 <= j < |results[i]| && results[i][j] == x;
    }
  }

  /**
   * The union does not depend on the order in which results arrive: any
   * rearrangement of the same results gives the same set.
   */
  lemma UnionOrderIndependent(a: seq<seq<string>>, b: seq<seq<string>>)
    requires multiset(a) == multiset(b)
    ensures UnionAll(a) == UnionAll(b)
  {
    forall x ensures x in UnionAll(a) ==> x in UnionAll(b) {
      UnionMembers(a, x);
      UnionMembers(b, x);
      if x in UnionAll(a) {
        var i :| 0 <= i < |a| && x in a[i];
        assert a[i] in multiset(b);
      }
    }
    forall x ensures x in UnionAll(b) ==> x in UnionAll(a) {
      UnionMembers(a, x);
      UnionMembers(b, x);
      if x in UnionAll(b) {
        var i :| 0 <= i < |b| && x in b[i];
        assert b[i] in multiset(a);
      }
    }
  }

  /** The aggregator: inserts every value of every result, in arrival order, into one set. */
  method Aggregate(results: seq<seq<string>>) returns (m: set<string>)
    ensures m == UnionAll(results)
  {
    m := {};
    var n := 0;
    while n < |results|
      invariant 0 <= n <= |results|
      invariant m == UnionAll(results[..n])
    {
      var r := results[n];
      var k := 0;
      while k < |r|
        invariant 0 <= k <= |r|
        invariant m == UnionAll(results[..n]) + (set x | x in r[..k])
      {
        assert r[..k + 1] == r[..k] + [r[k]];
        m := m + {r[k]};
        k := k + 1;
      }
      assert r[..k] == r;
      UnionAllSnoc(results[..n], r);
      assert results[..n + 1] == results[..n] + [r];
      n := n + 1;
    }
    assert results[..n] == results;
  }

  /** What one proxy's task gets to see: whether its requester can be built, and its request results. */
  datatype ProxyRun = ProxyRun(created: bool, obs: seq<Observation>)

  /**
   * main: one task per proxy address, in order (a single task with the empty
   * address when none is configured); the result set is the union of every
   * task's values, whatever order the results arrive in.
   */
  method Orchestrate(configured: seq<string>, cases: nat, repeatRate: real,
                     runs: seq<ProxyRun>, arrival: seq<nat>)
    returns (addrs: seq<string>, m: set<string>)
    requires |runs| == |DefaultProxies(configured)|
    requires |arrival| == |runs|
    requires forall k :: 0 <= k < |arrival| ==> arrival[k] < |runs|
    requires forall i :: 0 <= i < |runs| ==> i in arrival
    ensures |configured| == 0 ==> addrs == [""]
    ensures |configured| > 0 ==> addrs == configured
    ensures forall x :: x in m <==>
      exists i :: 0 <= i < |runs| && x in TaskSpec(runs[i].created, cases, repeatRate, runs[i].obs).values
  {
    addrs := DefaultProxies(configured);
    var results: seq<seq<string>> := [];
    var i := 0;
    while i < |addrs|
      invariant 0 <= i <= |addrs|
      invariant |results| == i
      invariant forall t :: 0 <= t < i ==>
        (set x | x in results[t]) == TaskSpec(runs[t].created, cases, repeatRate, runs[t].obs).values
    {
      var values, _, _ := RunTask(runs[i].created, cases, repeatRate, runs[i].obs);
      results := results + [values];
      i := i + 1;
    }
    var delivered := seq(|arrival|, k requires 0 <= k < |arrival| => results[arrival[k]]);
    m := Aggregate(delivered);
    forall x ensures x in m <==>
      exists t :: 0 <= t < |runs| && x in TaskSpec(runs[t].created, cases, repeatRate, runs[t].obs).values
    {
      UnionMembers(delivered, x);
      if x in m {
        var k :| 0 <= k < |delivered| && x in delivered[k];
        assert x in results[arrival[k]];
      }
      if exists t :: 0 <= t < |runs| && x in TaskSpec(runs[t].created, cases, repeatRate, runs[t].obs).values {
        var t :| 0 <= t < |runs| && x in TaskSpec(runs[t].created, cases, repeatRate, runs[t].obs).values;
        assert x in results[t];
        assert t in arrival;
        var k :| 0 <= k < |arrival| && arrival[k] == t;
        assert delivered[k] == results[t];
      }
    }
  }

  /** The log context main builds for the task of one address (its loop counter is never advanced). */
  function MainTaskContext(addr: string): Context
  {
    AddKvs(Background, ["loop", "0", "proxy", FirstNotEmpty([addr, "no_proxy"])])
  }

  /** The log context inside the task, which adds the proxy address once more when there is one. */
  function TaskContext(addr: string): Context
  {
    if addr != "" then AddKvs(MainTaskContext(addr), ["proxy", addr]) else MainTaskContext(addr)
  }

  /** The address main logs for a task: the address itself, or no_proxy for the direct task. */
  lemma ProxyLogName(addr: string)
    ensures FirstNotEmpty([addr, "no_proxy"]) == if addr == "" then "no_proxy" else addr
  {
    assert [addr, "no_proxy"][1..] == ["no_proxy"] && |"no_proxy"| == 8;
    assert addr != "" ==> |addr| > 0;
  }

  /** The fields main attaches to a task's context. */
  lemma MainTaskFields(addr: string)
    ensures GetKvList(MainTaskContext(addr)) == [Field("loop", "0"), Field("proxy", FirstNotEmpty([addr, "no_proxy"]))]
  {
    var name := FirstNotEmpty([addr, "no_proxy"]);
    var kvs := ["loop", "0", "proxy", name];
    assert MainTaskContext(addr) == AddKvs(Background, kvs);
    AddKvsAppends(Background, kvs);
    assert GetKvList(Background) == [];
    assert kvs[2..] == ["proxy", name];
    assert Pairs(["proxy", name]) == [Field("proxy", name)];
    assert Pairs(kvs) == [Field("loop", "0")] + Pairs(kvs[2..]);
  }

  /**
   * A task logs with the fields loop=0 and proxy=<address or no_proxy>,
   * followed, for a real proxy, by proxy=<address> again.
   */
  lemma TaskLogFields(addr: string)
    ensures GetKvList(TaskContext(addr)) ==
      [Field("loop", "0"), Field("proxy", if addr == "" then "no_proxy" else addr)]
      + (if addr != "" then [Field("proxy", addr)] else [])
  {
    ProxyLogName(addr);
    MainTaskFields(addr);
    if addr != "" {
      AddPairAppends(MainTaskContext(addr), "proxy", addr);
    }
  }
}
