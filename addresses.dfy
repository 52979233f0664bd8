/** The fixed list of Cloudflare WARP endpoint addresses the test sweeps. */
module Addresses {
  import opened Decimal

  const Range192: string := "162.159.192."
  const Range195: string := "162.159.195."

  /** ips holds 162.159.192.1 .. 162.159.192.20 and then 162.159.195.1 .. 162.159.195.10. */
  predicate IsWarpList(ips: seq<string>) {
    |ips| == 30
    && (forall k :: 0 <= k < 20 ==> ips[k] == Range192 + Show(k + 1))
    && (forall k :: 20 <= k < 30 ==> ips[k] == Range195 + Show(k - 19))
  }

  /**
   * The twenty addresses 162.159.192.1 .. 162.159.192.20 followed by the ten
   * addresses 162.159.195.1 .. 162.159.195.10, each appended in turn.
   */
  method GetIps() returns (ips: seq<string>)
    ensures IsWarpList(ips)
    ensures ips[0] == "162.159.192.1" && ips[19] == "162.159.192.20"
    ensures ips[20] == "162.159.195.1" && ips[29] == "162.159.195.10"
    ensures forall p, q :: 0 <= p < q < |ips| ==> ips[p] != ips[q]
  {
    ips := [];
    for i := 1 to 21
      invariant |ips| == i - 1
      invariant forall k :: 0 <= k < i - 1 ==> ips[k] == Range192 + Show(k + 1)
    {
      ips := ips + [Range192 + Show(i)];
    }
    for i := 1 to 11
      invariant |ips| == 19 + i
      invariant forall k :: 0 <= k < 20 ==> ips[k] == Range192 + Show(k + 1)
      invariant forall k :: 20 <= k < 19 + i ==> ips[k] == Range195 + Show(k - 19)
    {
      ips := ips + [Range195 + Show(i)];
    }
    assert Show(20) == "20" && Show(10) == "10";
    forall p, q | 0 <= p < q < |ips|
      ensures ips[p] != ips[q]
    {
      DistinctAddresses(ips, p, q);
    }
  }

  /** Two positions of the list hold different addresses. */
  lemma DistinctAddresses(ips: seq<string>, p: nat, q: nat)
    requires IsWarpList(ips) && p < q < 30
    ensures ips[p] != ips[q]
  {
    if p < 20 <= q {
      assert ips[p][10] == '2' && ips[q][10] == '5';
    } else {
      var pre, np, nq := Range192, p + 1, q + 1;
      if p >= 20 {
        pre, np, nq := Range195, p - 19, q - 19;
      }
      assert ips[p][|pre|..] == Show(np) && ips[q][|pre|..] == Show(nq);
      ShowInjective(np, nq);
    }
  }
}
