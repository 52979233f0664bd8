/**
 * The whole test as `main` runs it, with the ping facility given as a
 * Prober: sweep the address list, rank the averages, report the three fastest
 * or that no address answered.
 */
module PingTest {
  import opened Wrappers
  import opened Addresses
  import opened Latency
  import opened Sampling
  import opened Ranking

  /** What the popup shows: the ranked addresses, or "No accessible IPs found." */
  datatype Report = NoAccessibleIps | Fastest(top: seq<Entry>)

  /** The report for a ranked list: the no-result message exactly when the list is empty. */
  function Summary(top: seq<Entry>): (r: Report)
    ensures r.NoAccessibleIps? <==> top == []
    ensures r.Fastest? ==> r.top == top
  {
    if top != [] then Fastest(top) else NoAccessibleIps
  }

  /**
   * `main` without its console and window output. The ghost trace lists the
   * pings sent: ten to each of the thirty addresses, in order.
   */
  method RunPingTest(probe: Prober) returns (ips: seq<string>, report: Report, ghost trace: seq<(nat, nat)>)
    ensures IsWarpList(ips)
    ensures trace == Schedule(|ips|)
    ensures report == Summary(Rank(Results(ips, LatencyTable(probe))))
    ensures report.NoAccessibleIps? <==>
      forall a, t :: 0 <= a < |ips| && 0 <= t < SamplesPerAddress ==> PingIp(probe(a, t)).None?
    ensures report.Fastest? ==> 1 <= |report.top| <= TopCount && SortedByAvg(report.top)
    ensures report.Fastest? ==> forall e :: e in report.top ==>
      exists a :: 0 <= a < |ips| && Latencies(probe, a) != [] && e == Entry(ips[a], Mean(Latencies(probe, a)))
  {
    ips := GetIps();
    var results;
    results, trace := Sweep(ips, probe);
    var top := Rank(results);
    report := Summary(top);
    AllFailedIff(ips, probe);
    if top != [] {
      forall e | e in top
        ensures exists a :: 0 <= a < |ips| && Latencies(probe, a) != [] && e == Entry(ips[a], Mean(Latencies(probe, a)))
      {
        assert e in multiset(top);
        var p :| 0 <= p < |results| && results[p] == e;
        ResultsValue(ips, LatencyTable(probe), p);
      }
    }
  }

  /** The ranked list is empty exactly when every ping to every address failed. */
  lemma AllFailedIff(ips: seq<string>, probe: Prober)
    ensures Rank(Results(ips, LatencyTable(probe))) == [] <==>
      forall a, t :: 0 <= a < |ips| && 0 <= t < SamplesPerAddress ==> PingIp(probe(a, t)).None?
  {
    var results := Results(ips, LatencyTable(probe));
    assert |Rank(results)| == 0 <==> |results| == 0;
    ResultsEmpty(ips, LatencyTable(probe));
    NoLatenciesIff(ips, probe);
  }

  /** No address keeps a latency exactly when every ping to every address failed. */
  lemma NoLatenciesIff(ips: seq<string>, probe: Prober)
    ensures (forall a :: 0 <= a < |ips| ==> LatencyTable(probe)(a) == []) <==>
      forall a, t :: 0 <= a < |ips| && 0 <= t < SamplesPerAddress ==> PingIp(probe(a, t)).None?
  {
    var table := LatencyTable(probe);
    if forall a :: 0 <= a < |ips| ==> table(a) == [] {
      forall a, t | 0 <= a < |ips| && 0 <= t < SamplesPerAddress
        ensures PingIp(probe(a, t)).None?
      {
        assert table(a) == Latencies(probe, a) == [];
        LatenciesEmpty(probe, a);
      }
    } else {
      var a :| 0 <= a < |ips| && table(a) != [];
      assert Latencies(probe, a) != [];
      LatenciesEmpty(probe, a);
    }
  }
}
