/**
 * The sweep over the address list: ten pings per address, the mean of the
 * successful ones, and the dictionary `results` from address to mean.
 */
module Sampling {
  import opened Wrappers
  import opened Latency

  /** The number of pings sent to each address. */
  const SamplesPerAddress: nat := 10

  /**
   * The ping facility, seen from outside: probe(a, t) is the text that the
   * t-th ping of the a-th address printed, or None when running ping raised.
   */
  type Prober = (nat, nat) -> Option<string>

  /** The outcomes `ping_ip` reports for the ten pings of address number a. */
  function Attempts(probe: Prober, a: nat): seq<Option<nat>> {
    seq(SamplesPerAddress, t requires 0 <= t => PingIp(probe(a, t)))
  }

  /** The successful latencies among xs, in order. */
  function Successes(xs: seq<Option<nat>>): seq<nat> {
    if xs == [] then []
    else Successes(xs[..|xs| - 1]) + (if xs[|xs| - 1].Some? then [xs[|xs| - 1].value] else [])
  }

  /** Failed attempts add nothing and successes are kept in probe order. */
  lemma {:induction false} SuccessesAppend(xs: seq<Option<nat>>, ys: seq<Option<nat>>)
    ensures Successes(xs + ys) == Successes(xs) + Successes(ys)
    decreases |ys|
  {
    if ys == [] {
      assert xs + ys == xs;
    } else {
      var last := ys[|ys| - 1];
      assert (xs + ys)[..|xs + ys| - 1] == xs + ys[..|ys| - 1];
      SuccessesAppend(xs, ys[..|ys| - 1]);
    }
  }

  /** The latencies kept are exactly the values of the successful attempts. */
  lemma {:induction false} SuccessesMembers(xs: seq<Option<nat>>, v: nat)
    ensures v in Successes(xs) <==> Some(v) in xs
  {
    if xs != [] {
      var init := xs[..|xs| - 1];
      assert xs == init + [xs[|xs| - 1]];
      SuccessesMembers(init, v);
    }
  }

  /** No latency is kept exactly when every attempt failed. */
  lemma {:induction false} SuccessesEmpty(xs: seq<Option<nat>>)
    ensures Successes(xs) == [] <==> forall t :: 0 <= t < |xs| ==> xs[t].None?
  {
    if xs != [] {
      var init := xs[..|xs| - 1];
      SuccessesEmpty(init);
      assert forall t :: 0 <= t < |init| ==> init[t] == xs[t];
    }
  }

  function Sum(xs: seq<nat>): nat {
    if xs == [] then 0 else Sum(xs[..|xs| - 1]) + xs[|xs| - 1]
  }

  /** `statistics.mean`, exactly: the sum over the count. */
  function Mean(xs: seq<nat>): real
    requires |xs| > 0
  {
    Sum(xs) as real / |xs| as real
  }

  lemma {:induction false} SumBetween(xs: seq<nat>, lo: nat, hi: nat)
    requires forall p :: 0 <= p < |xs| ==> lo <= xs[p] <= hi
    ensures |xs| * lo <= Sum(xs) <= |xs| * hi
  {
    if xs != [] {
      var k := |xs| - 1;
      SumBetween(xs[..k], lo, hi);
      assert Sum(xs) == Sum(xs[..k]) + xs[k];
      assert k * lo + lo == |xs| * lo by { MulSucc(k, lo); }
      assert k * hi + hi == |xs| * hi by { MulSucc(k, hi); }
    }
  }

  /** The mean lies between the smallest and the largest sample. */
  lemma MeanBetween(xs: seq<nat>, lo: nat, hi: nat)
    requires |xs| > 0
    requires forall p :: 0 <= p < |xs| ==> lo <= xs[p] <= hi
    ensures lo as real <= Mean(xs) <= hi as real
  {
    SumBetween(xs, lo, hi);
    QuotientBetween(Sum(xs) as real, |xs| as real, lo as real, hi as real);
  }

  lemma QuotientBetween(sum: real, n: real, lo: real, hi: real)
    requires n > 0.0 && n * lo <= sum <= n * hi
    ensures lo <= sum / n <= hi
  {
    var m := sum / n;
    assert m * n == sum;
    assert (m - lo) * n >= 0.0;
    assert (hi - m) * n >= 0.0;
  }

  lemma MulSucc(k: nat, x: nat)
    ensures k * x + x == (k + 1) * x
  {
  }

  /** One success out of ten: the average is that sample. */
  lemma MeanOfOne(l: nat)
    ensures Mean([l]) == l as real
  {
    assert [l][..0] == [];
    assert Sum([l]) == l;
  }

  lemma MeanExample()
    ensures Mean([10, 20, 30]) == 20.0
  {
    assert [10, 20, 30][..2] == [10, 20];
    assert [10, 20][..1] == [10];
    assert [10][..0] == [];
  }

  // ---- The `results` dictionary ------------------------------------------------

  /** One item of `results`: an address and the average of its successful pings. */
  datatype Entry = Entry(ip: string, avg: real)

  /** The keys of the dict, in insertion order. */
  function Ips(d: seq<Entry>): (ks: seq<string>)
    ensures |ks| == |d| && forall p :: 0 <= p < |d| ==> ks[p] == d[p].ip
  {
    seq(|d|, p requires 0 <= p < |d| => d[p].ip)
  }

  /** No address occurs twice, as in any Python dict. */
  predicate DistinctIps(d: seq<Entry>) {
    forall p, q :: 0 <= p < q < |d| ==> d[p].ip != d[q].ip
  }

  /** The position of ip among the keys of d, or |d| when it is not a key. */
  function IndexOf(d: seq<Entry>, ip: string): (k: nat)
    ensures k <= |d|
    ensures k < |d| ==> d[k].ip == ip
    ensures forall q :: 0 <= q < k ==> d[q].ip != ip
  {
    if d == [] || d[0].ip == ip then 0 else 1 + IndexOf(d[1..], ip)
  }

  /**
   * `results[ip] = avg` on a dict kept as its items in insertion order: an
   * existing key keeps its position and takes the new value, a new key goes last.
   */
  function Put(d: seq<Entry>, ip: string, avg: real): (r: seq<Entry>)
    ensures ip !in Ips(d) ==> r == d + [Entry(ip, avg)]
    ensures forall p :: 0 <= p < |d| && d[p].ip == ip && ip !in Ips(d[..p]) ==> r == d[p := Entry(ip, avg)]
  {
    var k := IndexOf(d, ip);
    if k == |d| then d + [Entry(ip, avg)] else d[k := Entry(ip, avg)]
  }

  /** The keys after `results[ip] = avg`: those before, and ip last if it was new. */
  lemma PutKeys(d: seq<Entry>, ip: string, avg: real)
    ensures Ips(Put(d, ip, avg)) == if ip in Ips(d) then Ips(d) else Ips(d) + [ip]
  {
    var k := IndexOf(d, ip);
    if ip in Ips(d) {
      assert k < |d|;
    }
  }

  /** Assignment keeps the keys distinct. */
  lemma PutDistinct(d: seq<Entry>, ip: string, avg: real)
    requires DistinctIps(d)
    ensures DistinctIps(Put(d, ip, avg))
  {
    var k := IndexOf(d, ip);
    var r := Put(d, ip, avg);
    assert forall p :: 0 <= p < |r| && p != k ==> r[p] == d[p];
  }

  // ---- The sweep -----------------------------------------------------------------

  /** The latencies kept for address number a. */
  function Latencies(probe: Prober, a: nat): seq<nat> {
    Successes(Attempts(probe, a))
  }

  /** Address number a keeps no latency exactly when all ten of its pings failed. */
  lemma LatenciesEmpty(probe: Prober, a: nat)
    ensures Latencies(probe, a) == [] <==> forall t :: 0 <= t < SamplesPerAddress ==> PingIp(probe(a, t)).None?
  {
    var xs := Attempts(probe, a);
    SuccessesEmpty(xs);
    assert forall t :: 0 <= t < SamplesPerAddress ==> xs[t] == PingIp(probe(a, t));
  }

  /** The latencies kept for every address number, as one function. */
  function LatencyTable(probe: Prober): nat -> seq<nat> {
    a => Latencies(probe, a)
  }

  /**
   * `results` after the sweep over ips: address after address, the mean of its
   * latencies is stored under it when it has any.
   */
  function Results(ips: seq<string>, lat: nat -> seq<nat>): seq<Entry>
    decreases |ips|
  {
    if ips == [] then []
    else
      var a := |ips| - 1;
      var d := Results(ips[..a], lat);
      if lat(a) == [] then d else Put(d, ips[a], Mean(lat(a)))
  }

  /** The items one would list by hand for distinct addresses: each address with a success, in order, with its mean. */
  function Recorded(ips: seq<string>, lat: nat -> seq<nat>): seq<Entry>
    decreases |ips|
  {
    if ips == [] then []
    else
      var a := |ips| - 1;
      Recorded(ips[..a], lat) + (if lat(a) == [] then [] else [Entry(ips[a], Mean(lat(a)))])
  }

  /** Some ping to an occurrence of x in ips succeeded. */
  predicate HasSuccess(ips: seq<string>, lat: nat -> seq<nat>, x: string) {
    exists a :: 0 <= a < |ips| && ips[a] == x && lat(a) != []
  }

  /** A success in ips is a success in its prefix or at its last address. */
  lemma HasSuccessSplit(ips: seq<string>, lat: nat -> seq<nat>, x: string)
    requires ips != []
    ensures HasSuccess(ips, lat, x) <==>
      HasSuccess(ips[..|ips| - 1], lat, x) || (lat(|ips| - 1) != [] && ips[|ips| - 1] == x)
  {
    var n := |ips| - 1;
    var init := ips[..n];
    if HasSuccess(ips, lat, x) {
      var a :| 0 <= a < |ips| && ips[a] == x && lat(a) != [];
      if a < n {
        assert init[a] == x;
      }
    }
    if HasSuccess(init, lat, x) {
      var a :| 0 <= a < |init| && init[a] == x && lat(a) != [];
      assert ips[a] == x;
    }
  }

  /** An address gets an entry exactly when at least one of its pings succeeded. */
  lemma {:induction false} ResultsKeys(ips: seq<string>, lat: nat -> seq<nat>, x: string)
    ensures x in Ips(Results(ips, lat)) <==> HasSuccess(ips, lat, x)
    decreases |ips|
  {
    if ips != [] {
      var n := |ips| - 1;
      var d := Results(ips[..n], lat);
      ResultsKeys(ips[..n], lat, x);
      HasSuccessSplit(ips, lat, x);
      if lat(n) != [] {
        PutKeys(d, ips[n], Mean(lat(n)));
      }
    }
  }

  /** The dict never holds an address twice. */
  lemma {:induction false} ResultsDistinct(ips: seq<string>, lat: nat -> seq<nat>)
    ensures DistinctIps(Results(ips, lat))
    decreases |ips|
  {
    if ips != [] {
      var n := |ips| - 1;
      ResultsDistinct(ips[..n], lat);
      if lat(n) != [] {
        PutDistinct(Results(ips[..n], lat), ips[n], Mean(lat(n)));
      }
    }
  }

  /** Nothing is recorded exactly when no ping to any address succeeded. */
  lemma ResultsEmpty(ips: seq<string>, lat: nat -> seq<nat>)
    ensures Results(ips, lat) == [] <==> forall a :: 0 <= a < |ips| ==> lat(a) == []
  {
    var r := Results(ips, lat);
    if r != [] {
      ResultsKeys(ips, lat, r[0].ip);
      assert r[0].ip in Ips(r);
    } else {
      forall a | 0 <= a < |ips| ensures lat(a) == [] {
        ResultsKeys(ips, lat, ips[a]);
      }
    }
  }

  /** Number a is the last position of ip with a successful ping. */
  ghost predicate LastSuccess(ips: seq<string>, lat: nat -> seq<nat>, a: nat, ip: string) {
    a < |ips| && ips[a] == ip && lat(a) != []
    && forall b :: a < b < |ips| && ips[b] == ip ==> lat(b) == []
  }

  /** Each stored average is the mean of the successful pings of the last success of that address; later stores overwrite. */
  lemma {:induction false} ResultsValue(ips: seq<string>, lat: nat -> seq<nat>, p: nat)
    requires p < |Results(ips, lat)|
    ensures exists a: nat ::
      LastSuccess(ips, lat, a, Results(ips, lat)[p].ip) && Results(ips, lat)[p].avg == Mean(lat(a))
    decreases |ips|
  {
    var n := |ips| - 1;
    var init := ips[..n];
    var d := Results(init, lat);
    var e := Results(ips, lat)[p];
    ResultsDistinct(init, lat);
    if lat(n) != [] {
      PutAt(d, ips[n], Mean(lat(n)), p);
    }
    if lat(n) != [] && e.ip == ips[n] {
      assert LastSuccess(ips, lat, n, e.ip);
    } else {
      assert p < |d| && e == d[p];
      ResultsValue(init, lat, p);
      var a: nat :| LastSuccess(init, lat, a, e.ip) && e.avg == Mean(lat(a));
      LastSuccessExtend(ips, lat, a, e.ip);
    }
  }

  /** A last success in a prefix stays the last one when the next address is another or failed. */
  lemma LastSuccessExtend(ips: seq<string>, lat: nat -> seq<nat>, a: nat, ip: string)
    requires ips != [] && LastSuccess(ips[..|ips| - 1], lat, a, ip)
    requires lat(|ips| - 1) == [] || ips[|ips| - 1] != ip
    ensures LastSuccess(ips, lat, a, ip)
  {
    var init := ips[..|ips| - 1];
    assert ips[a] == init[a];
    forall b | a < b < |ips| && ips[b] == ip
      ensures lat(b) == []
    {
      if b < |init| {
        assert init[b] == ips[b];
      }
    }
  }

  /** Reading item p after `results[ip] = avg`: the new value under ip, the old item elsewhere. */
  lemma {:induction false} PutAt(d: seq<Entry>, ip: string, avg: real, p: nat)
    requires DistinctIps(d) && p < |Put(d, ip, avg)|
    ensures Put(d, ip, avg)[p].ip == ip ==> Put(d, ip, avg)[p] == Entry(ip, avg)
    ensures Put(d, ip, avg)[p].ip != ip ==> p < |d| && Put(d, ip, avg)[p] == d[p]
  {
    var k := IndexOf(d, ip);
    if k < |d| && p != k {
      assert d[p].ip != d[k].ip;
    }
  }

  /** For distinct addresses no entry is overwritten: the dict lists the successful addresses in order with their means. */
  lemma {:induction false} ResultsOfDistinct(ips: seq<string>, lat: nat -> seq<nat>)
    requires forall a, b :: 0 <= a < b < |ips| ==> ips[a] != ips[b]
    ensures Results(ips, lat) == Recorded(ips, lat)
    decreases |ips|
  {
    if ips != [] {
      var n := |ips| - 1;
      var init := ips[..n];
      ResultsOfDistinct(init, lat);
      ResultsKeys(init, lat, ips[n]);
    }
  }

  /** The pings sent to address number a: attempts 0 to 9, in order. */
  ghost function Pings(a: nat): seq<(nat, nat)> {
    seq(SamplesPerAddress, t requires 0 <= t => (a, t))
  }

  /** The pings of a whole sweep over n addresses. */
  ghost function Schedule(n: nat): seq<(nat, nat)> {
    if n == 0 then [] else Schedule(n - 1) + Pings(n - 1)
  }

  /** The sweep pings each address exactly ten times, address after address: ping k is attempt k % 10 of address k / 10. */
  lemma {:induction false} ScheduleAt(n: nat, k: nat)
    requires k < SamplesPerAddress * n
    ensures |Schedule(n)| == SamplesPerAddress * n
    ensures Schedule(n)[k] == (k / SamplesPerAddress, k % SamplesPerAddress)
  {
    ScheduleLength(n);
    if k < SamplesPerAddress * (n - 1) {
      ScheduleAt(n - 1, k);
    } else {
      var t := k - SamplesPerAddress * (n - 1);
      assert k == SamplesPerAddress * (n - 1) + t;
      assert k / SamplesPerAddress == n - 1 && k % SamplesPerAddress == t;
    }
  }

  lemma {:induction false} ScheduleLength(n: nat)
    ensures |Schedule(n)| == SamplesPerAddress * n
  {
    if n > 0 {
      ScheduleLength(n - 1);
    }
  }

  /**
   * The inner loop: ten pings of address number a, keeping the latencies of
   * the successful ones. The ghost trace lists the pings sent.
   */
  method CollectLatencies(probe: Prober, a: nat) returns (latencies: seq<nat>, ghost trace: seq<(nat, nat)>)
    ensures latencies == Latencies(probe, a)
    ensures trace == Pings(a)
  {
    latencies, trace := [], [];
    ghost var attempts := Attempts(probe, a);
    for t := 0 to SamplesPerAddress
      invariant latencies == Successes(attempts[..t])
      invariant trace == Pings(a)[..t]
    {
      var latency := PingIp(probe(a, t));
      trace := trace + [(a, t)];
      assert attempts[..t + 1][..t] == attempts[..t];
      if latency.Some? {
        latencies := latencies + [latency.value];
      }
    }
    assert attempts[..SamplesPerAddress] == attempts;
    assert Pings(a)[..SamplesPerAddress] == Pings(a);
  }

  /**
   * The outer loop of the test: every address in turn, in order; an address
   * with at least one successful ping gets its mean stored in `results`.
   * The ghost trace lists every ping sent, as (address number, attempt).
   */
  method Sweep(ips: seq<string>, probe: Prober) returns (results: seq<Entry>, ghost trace: seq<(nat, nat)>)
    ensures results == Results(ips, LatencyTable(probe))
    ensures trace == Schedule(|ips|)
  {
    results, trace := [], [];
    for a := 0 to |ips|
      invariant results == Results(ips[..a], LatencyTable(probe))
      invariant trace == Schedule(a)
    {
      var latencies, pings := CollectLatencies(probe, a);
      assert ips[..a + 1][..a] == ips[..a];
      if latencies != [] {
        results := Put(results, ips[a], Mean(latencies));
      }
      trace := trace + pings;
    }
    assert ips[..|ips|] == ips;
  }
}
