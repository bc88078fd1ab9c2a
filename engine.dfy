/** Free-address selection: the addresses of the pools that are not yet
    allocations, the bounded window of the lowest of them, and a random pick
    inside that window. */
module Engine {
  import opened Errors
  import opened Addresses

  /** Cap on the selection window when the request does not prefer the next address. */
  const MaxWindow: nat := 30

  /** Address a of family v is in a pool and not recorded as allocations. */
  predicate IsFree(v: Version, pools: seq<IpRange>, allocations: seq<Ip>, a: nat) {
    InPools(pools, a) && Ip(v, a) !in allocations
  }

  /** The free addresses below x; the rank of x among the free addresses. */
  ghost function FreeBelow(v: Version, pools: seq<IpRange>, allocations: seq<Ip>, x: nat): set<nat> {
    set a: nat | a < x && IsFree(v, pools, allocations, a)
  }

  /** w lists the lowest free addresses in ascending order: as many as there
      are, but no more than limit. */
  ghost predicate IsSelectionWindow(v: Version, pools: seq<IpRange>, allocations: seq<Ip>, limit: nat, w: seq<nat>) {
    && |w| <= limit
    && (forall i, j :: 0 <= i < j < |w| ==> w[i] < w[j])
    && (forall i :: 0 <= i < |w| ==> IsFree(v, pools, allocations, w[i]))
    && (forall a: nat :: IsFree(v, pools, allocations, a) && a !in w ==>
          |w| == limit && forall i :: 0 <= i < |w| ==> w[i] < a)
  }

  /** The lowest free address at or above lo, if there is one. */
  method NextFree(v: Version, pools: seq<IpRange>, allocations: seq<Ip>, lo: nat) returns (r: Option<nat>)
    ensures r.Some? ==> lo <= r.value && IsFree(v, pools, allocations, r.value)
    ensures forall a: nat :: lo <= a && IsFree(v, pools, allocations, a) ==> r.Some? && r.value <= a
  {
    r := None;
    for i := 0 to |pools|
      invariant r.Some? ==> lo <= r.value && IsFree(v, pools, allocations, r.value)
      invariant forall j, a: nat :: 0 <= j < i && lo <= a && pools[j].Contains(a) && Ip(v, a) !in allocations ==>
                  r.Some? && r.value <= a
    {
      var pool := pools[i];
      var c := if lo < pool.first then pool.first else lo;
      while c <= pool.last && Ip(v, c) in allocations
        invariant lo <= c && pool.first <= c
        invariant forall a: nat :: lo <= a < c && pool.Contains(a) ==> Ip(v, a) in allocations
        decreases pool.last + 1 - c
      {
        c := c + 1;
      }
      if c <= pool.last && (r.None? || c < r.value) {
        assert pools[i].Contains(c);
        r := Some(c);
      }
    }
  }

  /** The first limit free addresses in ascending order (fewer if fewer are free). */
  method SelectionWindow(v: Version, pools: seq<IpRange>, allocations: seq<Ip>, limit: nat) returns (w: seq<nat>)
    ensures IsSelectionWindow(v, pools, allocations, limit, w)
  {
    w := [];
    var lo: nat := 0;
    while |w| < limit
      invariant |w| <= limit
      invariant forall i, j :: 0 <= i < j < |w| ==> w[i] < w[j]
      invariant forall i :: 0 <= i < |w| ==> IsFree(v, pools, allocations, w[i]) && w[i] < lo
      invariant forall a: nat :: a < lo && IsFree(v, pools, allocations, a) ==> a in w
      decreases limit - |w|
    {
      var next := NextFree(v, pools, allocations, lo);
      if next.None? {
        break;
      }
      w := w + [next.value];
      lo := next.value + 1;
    }
  }

  /** At most k distinct elements come from a sequence of length k. */
  lemma {:induction false} ElementsOfPrefix(w: seq<nat>, k: nat)
    requires k <= |w|
    ensures |set i | 0 <= i < k :: w[i]| <= k
  {
    if k > 0 {
      ElementsOfPrefix(w, k - 1);
      assert (set i | 0 <= i < k :: w[i]) == (set i | 0 <= i < k - 1 :: w[i]) + {w[k - 1]};
    }
  }

  /** In a selection window, the free addresses below the k-th entry are the entries before it. */
  lemma RankInWindow(v: Version, pools: seq<IpRange>, allocations: seq<Ip>, limit: nat, w: seq<nat>, k: nat)
    requires IsSelectionWindow(v, pools, allocations, limit, w) && k < |w|
    ensures |FreeBelow(v, pools, allocations, w[k])| <= k
  {
    var below := FreeBelow(v, pools, allocations, w[k]);
    forall a | a in below ensures a in (set i | 0 <= i < k :: w[i]) {
      assert a in w;
      var i :| 0 <= i < |w| && w[i] == a;
    }
    var prefix := set i | 0 <= i < k :: w[i];
    ElementsOfPrefix(w, k);
    assert prefix == below + (prefix - below);
    assert |prefix| == |below| + |prefix - below|;
  }

  /** _generate_ip: pick at random among the first min(|free|, 30) free
      addresses (among the first one only when the next address is
      preferred), in two stages: a random prefix length ip_index in
      1..window, then a random entry of that prefix. */
  method GenerateIp(v: Version, pools: seq<IpRange>, allocations: seq<Ip>, preferNext: bool) returns (r: Result<Ip>)
    requires forall i :: 0 <= i < |pools| ==> pools[i].version == v
    ensures r.Err? <==> forall a: nat :: !IsFree(v, pools, allocations, a)
    ensures r.Err? ==> r.error == AllocationExhausted
    ensures r.Ok? ==> r.value.version == v && IsFree(v, pools, allocations, r.value.value)
    ensures r.Ok? ==> |FreeBelow(v, pools, allocations, r.value.value)| < (if preferNext then 1 else MaxWindow)
    ensures r.Ok? && preferNext ==> forall a: nat :: IsFree(v, pools, allocations, a) ==> r.value.value <= a
  {
    var limit := if preferNext then 1 else MaxWindow;
    var window := SelectionWindow(v, pools, allocations, limit);
    if |window| == 0 {
      return Err(AllocationExhausted);
    }
    var ipIndex :| 1 <= ipIndex <= |window|;
    var candidateIps := window[..ipIndex];
    var pick :| 0 <= pick < |candidateIps|;
    var allocatedIp := candidateIps[pick];
    RankInWindow(v, pools, allocations, limit, window, pick);
    return Ok(Ip(v, allocatedIp));
  }
}
