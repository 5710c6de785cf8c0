/**
 * The process topology: which ranks drive a GPU (`get_gpu_ranks`, in both
 * the swept functions and the decomposition functions, which are the same
 * code) and the grouping of ranks into nodes by host name and of node
 * masters into the cluster (the design-space-exploration driver).
 */
module Topology {
  import opened PyCore
  import IndexSets

  /** One gathered entry `(rank, processor, gpu_ids, gpu_rank)`. */
  datatype RankInfo = RankInfo(rank: int, host: string, gpus: seq<int>, gpuRank: Option<int>)

  /**
   * An entry of `new_rank_info`: the input tuple as it stands, or
   * `(rank, processor, True, device)` for a rank given a GPU.
   */
  datatype Entry = Kept(info: RankInfo) | WithGpu(gpuRankOf: int, gpuHost: string, device: int)
  {
    function Rank(): int { if Kept? then info.rank else gpuRankOf }
    function Host(): string { if Kept? then info.host else gpuHost }
  }

  /** How many of the first `n` entries are on host `h`. */
  function Before(s: seq<RankInfo>, n: nat, h: string): nat
    requires n <= |s|
  {
    if n == 0 then 0 else Before(s, n - 1, h) + if s[n - 1].host == h then 1 else 0
  }

  /** The GPU list of the first of the first `n` entries on host `h`, if any. */
  function FirstGpus(s: seq<RankInfo>, n: nat, h: string): Option<seq<int>>
    requires n <= |s|
  {
    if n == 0 then None
    else if FirstGpus(s, n - 1, h).Some? then FirstGpus(s, n - 1, h)
    else if s[n - 1].host == h then Some(s[n - 1].gpus)
    else None
  }

  /** A host has a first GPU list exactly when some entry is on it. */
  lemma {:induction false} FirstGpusSeen(s: seq<RankInfo>, n: nat, h: string)
    requires n <= |s|
    ensures FirstGpus(s, n, h).Some? <==> Before(s, n, h) > 0
  {
    if n > 0 {
      FirstGpusSeen(s, n - 1, h);
    }
  }

  /** The GPU list that counts for entry `j`: the one of the first entry on its host. */
  function HostGpus(s: seq<RankInfo>, j: nat): seq<int>
    requires j < |s|
  {
    FirstGpusSeen(s, j + 1, s[j].host);
    FirstGpus(s, j + 1, s[j].host).value
  }

  /** How many GPUs have been handed out on a host after `c` of its ranks, from a list of `n`. */
  function Handed(affinity: real, c: nat, n: nat): nat
  {
    if affinity > 0.0 then IndexSets.Min(c, n) else 0
  }

  /**
   * What `get_gpu_ranks` makes of entry `j`: with a positive affinity, the
   * `c`-th rank on a host (counting from 0) is given device `c` of the
   * host's list while `c` is below the list's length; every other entry is
   * kept, the first one on each host with its GPU list reversed in place.
   */
  function Expected(s: seq<RankInfo>, affinity: real, j: nat): (r: Entry)
    requires j < |s|
    ensures r.Rank() == s[j].rank && r.Host() == s[j].host
    ensures r.WithGpu? <==> affinity > 0.0 && Before(s, j, s[j].host) < |HostGpus(s, j)|
  {
    var g := HostGpus(s, j);
    var c := Before(s, j, s[j].host);
    if affinity > 0.0 && c < |g| then WithGpu(s[j].rank, s[j].host, g[c])
    else if c == 0 then Kept(s[j].(gpus := IndexSets.Reverse(s[j].gpus)))
    else Kept(s[j])
  }

  /** `total_gpus` after the first `n` entries: the list lengths of each host's first entry. */
  function TotalGpus(s: seq<RankInfo>, n: nat): nat
    requires n <= |s|
  {
    if n == 0 then 0 else TotalGpus(s, n - 1) + if Before(s, n - 1, s[n - 1].host) == 0 then |s[n - 1].gpus| else 0
  }

  /**
   * `get_gpu_ranks(rank_info, affinity)`: one pass over the entries keeping,
   * per host, the count of GPUs still free and the reversed device list that
   * `pop` takes from. Distinct entries are assumed not to share a GPU list.
   */
  method GetGpuRanks(rankInfo: seq<RankInfo>, affinity: real) returns (out: seq<Entry>, total: nat)
    ensures |out| == |rankInfo|
    ensures forall j :: 0 <= j < |out| ==> out[j] == Expected(rankInfo, affinity, j)
    ensures total == TotalGpus(rankInfo, |rankInfo|)
  {
    total := 0;
    out := [];
    var free: map<string, int> := map[];
    var devices: map<string, seq<int>> := map[];
    for i := 0 to |rankInfo|
      invariant |out| == i && forall j :: 0 <= j < i ==> out[j] == Expected(rankInfo, affinity, j)
      invariant total == TotalGpus(rankInfo, i)
      invariant Tracks(rankInfo, affinity, i, free, devices)
    {
      var temp, added;
      temp, free, devices, added := Visit(rankInfo, affinity, i, free, devices);
      total := total + added;
      out := out + [temp];
    }
  }

  /**
   * The loop body of `get_gpu_ranks` for entry `i`: register its host on
   * first sight (reversing the host's list), then pop a device for it while
   * the host has one free and the affinity is positive.
   */
  method Visit(rankInfo: seq<RankInfo>, affinity: real, i: nat, free0: map<string, int>, devices0: map<string, seq<int>>)
    returns (temp: Entry, free: map<string, int>, devices: map<string, seq<int>>, added: nat)
    requires i < |rankInfo| && Tracks(rankInfo, affinity, i, free0, devices0)
    ensures temp == Expected(rankInfo, affinity, i)
    ensures Tracks(rankInfo, affinity, i + 1, free, devices)
    ensures added == if Before(rankInfo, i, rankInfo[i].host) == 0 then |rankInfo[i].gpus| else 0
  {
    added := 0;
    var ri := rankInfo[i];
    var h := ri.host;
    TracksAt(rankInfo, affinity, i, free0, devices0);
    ghost var g := HostGpus(rankInfo, i);
    ghost var c := Before(rankInfo, i, h);
    ghost var a := Handed(affinity, c, |g|);
    // the host's entries of `assigned_ctr` and `devices`
    var left: int, d: seq<int>;
    if h !in free0 {
      left := |ri.gpus|;
      // `ri[2].reverse()` reverses the list the kept tuple refers to
      ri := ri.(gpus := IndexSets.Reverse(ri.gpus));
      d := ri.gpus;
      added := |ri.gpus|;
      assert IndexSets.Reverse(g)[..|g| - a] == IndexSets.Reverse(g);
    } else {
      left, d := free0[h], devices0[h];
    }
    PopStep(g, c, affinity, left, d);
    temp := Kept(ri);
    if left > 0 && affinity > 0.0 {
      temp := WithGpu(ri.rank, h, d[|d| - 1]);
      d := d[..|d| - 1];
      left := left - 1;
    }
    ExpectedAt(rankInfo, affinity, i, temp);
    TracksNext(rankInfo, affinity, i, free0, devices0, left, d);
    free, devices := free0[h := left], devices0[h := d];
  }

  /**
   * The pop of entry `c` (counting from 0) on a host with list `g`: a device
   * is left exactly when the affinity is positive and `c < #g`, the one
   * popped is `reversed(g)[#g - c - 1]`, i.e. `g[c]`, and what remains is the
   * state after `c + 1` entries.
   */
  lemma PopStep(g: seq<int>, c: nat, affinity: real, left: int, d: seq<int>)
    requires left == |g| - Handed(affinity, c, |g|) && d == IndexSets.Reverse(g)[..left]
    ensures |d| == left
    ensures (left > 0 && affinity > 0.0) <==> (affinity > 0.0 && c < |g|)
    ensures left > 0 && affinity > 0.0 ==>
      && d[|d| - 1] == IndexSets.Reverse(g)[|g| - c - 1]
      && left - 1 == |g| - Handed(affinity, c + 1, |g|)
      && d[..|d| - 1] == IndexSets.Reverse(g)[..|g| - Handed(affinity, c + 1, |g|)]
    ensures !(left > 0 && affinity > 0.0) ==>
      left == |g| - Handed(affinity, c + 1, |g|) && d == IndexSets.Reverse(g)[..|g| - Handed(affinity, c + 1, |g|)]
  {
  }

  /**
   * The per-host state of `get_gpu_ranks` after `i` entries: a host is known
   * once an entry on it has been seen; it then has `#gpus - handed` GPUs free
   * and the first `#gpus - handed` entries of its reversed list left to pop.
   */
  ghost predicate Tracks(s: seq<RankInfo>, affinity: real, i: nat, free: map<string, int>, devices: map<string, seq<int>>)
    requires i <= |s|
  {
    && (forall h :: h in free <==> Before(s, i, h) > 0)
    && (forall h :: h in devices <==> h in free)
    && (forall h :: h in free ==> HostTracked(s, affinity, i, free, devices, h))
  }

  /** Host `h` has a first list `g`, `#g - handed` GPUs free and `reversed(g)[:#g - handed]` to pop. */
  ghost predicate HostTracked(s: seq<RankInfo>, affinity: real, i: nat, free: map<string, int>, devices: map<string, seq<int>>, h: string)
    requires i <= |s|
  {
    && h in free && h in devices
    && FirstGpus(s, i, h).Some?
    && var g := FirstGpus(s, i, h).value;
       var a := Handed(affinity, Before(s, i, h), |g|);
       free[h] == |g| - a && devices[h] == IndexSets.Reverse(g)[..|g| - a]
  }

  /** The state of entry `i`'s host before the entry is visited. */
  lemma TracksAt(s: seq<RankInfo>, affinity: real, i: nat, free: map<string, int>, devices: map<string, seq<int>>)
    requires i < |s| && Tracks(s, affinity, i, free, devices)
    ensures var h := s[i].host;
      var g := HostGpus(s, i);
      var a := Handed(affinity, Before(s, i, h), |g|);
      && (h in free ==> h in devices && free[h] == |g| - a && devices[h] == IndexSets.Reverse(g)[..|g| - a])
      && (h !in free ==> h !in devices && g == s[i].gpus && a == 0)
  {
    FirstGpusSeen(s, i, s[i].host);
  }

  /** What the loop body of `get_gpu_ranks` appends for entry `i`. */
  lemma ExpectedAt(s: seq<RankInfo>, affinity: real, i: nat, e: Entry)
    requires i < |s|
    requires var h := s[i].host;
      var g := HostGpus(s, i);
      var c := Before(s, i, h);
      if affinity > 0.0 && c < |g| then e == WithGpu(s[i].rank, h, IndexSets.Reverse(g)[|g| - c - 1])
      else if c == 0 then e == Kept(s[i].(gpus := IndexSets.Reverse(s[i].gpus)))
      else e == Kept(s[i])
    ensures e == Expected(s, affinity, i)
  {
  }

  /** The host of entry `i` is the only one whose state entry `i` moves. */
  lemma TracksNext(s: seq<RankInfo>, affinity: real, i: nat, free: map<string, int>, devices: map<string, seq<int>>,
                   left: int, d: seq<int>)
    requires i < |s| && Tracks(s, affinity, i, free, devices)
    requires var g := HostGpus(s, i);
      var a := Handed(affinity, Before(s, i, s[i].host) + 1, |g|);
      left == |g| - a && d == IndexSets.Reverse(g)[..|g| - a]
    ensures Tracks(s, affinity, i + 1, free[s[i].host := left], devices[s[i].host := d])
  {
    var free', devices' := free[s[i].host := left], devices[s[i].host := d];
    forall h | h in free'
      ensures HostTracked(s, affinity, i + 1, free', devices', h)
    {
      HostTrackedNext(s, affinity, i, free, devices, left, d, h);
    }
    KnownHostsNext(s, i, i + 1, free, s[i].host, left);
  }

  /** Entry `i` moves its own host's state by one rank and leaves every other host's alone. */
  lemma HostTrackedNext(s: seq<RankInfo>, affinity: real, i: nat, free: map<string, int>, devices: map<string, seq<int>>,
                        left: int, d: seq<int>, h: string)
    requires i < |s| && (h != s[i].host ==> HostTracked(s, affinity, i, free, devices, h))
    requires var g := HostGpus(s, i);
      var a := Handed(affinity, Before(s, i, s[i].host) + 1, |g|);
      left == |g| - a && d == IndexSets.Reverse(g)[..|g| - a]
    requires h in free[s[i].host := left]
    ensures HostTracked(s, affinity, i + 1, free[s[i].host := left], devices[s[i].host := d], h)
  {
    if h == s[i].host {
      FirstGpusSeen(s, i + 1, h);
    }
  }

  /** After entry `i` the known hosts are those known before and entry `i`'s own. */
  lemma KnownHostsNext(s: seq<RankInfo>, i: nat, j: nat, free: map<string, int>, host: string, left: int)
    requires j == i + 1 && j <= |s| && host == s[i].host
    requires forall h :: h in free <==> Before(s, i, h) > 0
    ensures forall h :: h in free[host := left] <==> Before(s, j, h) > 0
  {
  }

  /** How many of the first `n` entries on host `h` are given a GPU. */
  function GivenOn(s: seq<RankInfo>, affinity: real, n: nat, h: string): nat
    requires n <= |s|
  {
    if n == 0 then 0
    else GivenOn(s, affinity, n - 1, h) + if s[n - 1].host == h && Expected(s, affinity, n - 1).WithGpu? then 1 else 0
  }

  /**
   * On each host, `min(#ranks, #gpus)` ranks are given a GPU when the
   * affinity is positive and none otherwise, `#gpus` being the length of the
   * host's first list.
   */
  lemma {:induction false} GivenPerHost(s: seq<RankInfo>, affinity: real, n: nat, h: string)
    requires n <= |s|
    ensures FirstGpus(s, n, h).Some? ==>
      GivenOn(s, affinity, n, h) == Handed(affinity, Before(s, n, h), |FirstGpus(s, n, h).value|)
    ensures FirstGpus(s, n, h).None? ==> GivenOn(s, affinity, n, h) == 0
  {
    if n > 0 {
      GivenPerHost(s, affinity, n - 1, h);
      FirstGpusSeen(s, n - 1, h);
      FirstGpusSeen(s, n, h);
    }
  }

  // ---------------------------------------------------------------------
  // Node and cluster grouping

  /** `[n for n, p in nodes_processors if p == processor]`, ranks being the gather positions. */
  function NodeRanks(hosts: seq<string>, p: string, n: nat): (r: seq<nat>)
    requires n <= |hosts|
    ensures forall k :: 0 <= k < |r| ==> r[k] < n && hosts[r[k]] == p
    ensures forall k, k' :: 0 <= k < k' < |r| ==> r[k] < r[k']
  {
    if n == 0 then [] else NodeRanks(hosts, p, n - 1) + if hosts[n - 1] == p then [n - 1] else []
  }

  /** Every rank on host `p` is listed. */
  lemma {:induction false} NodeRanksComplete(hosts: seq<string>, p: string, n: nat, i: nat)
    requires n <= |hosts| && i < n && hosts[i] == p
    ensures i in NodeRanks(hosts, p, n)
  {
    if i < n - 1 {
      NodeRanksComplete(hosts, p, n - 1, i);
    }
  }

  /** The first rank on host `p`. */
  function FirstOn(hosts: seq<string>, p: string, n: nat): (r: nat)
    requires n <= |hosts| && p in hosts[..n]
    ensures r < n && hosts[r] == p && forall i :: 0 <= i < r ==> hosts[i] != p
  {
    if hosts[n - 1] == p && p !in hosts[..n - 1] then n - 1
    else
      assert hosts[..n] == hosts[..n - 1] + [hosts[n - 1]];
      FirstOn(hosts, p, n - 1)
  }

  /** `node_master = node_ranks[0]`: the first rank on the caller's host. */
  lemma NodeMasterIsFirst(hosts: seq<string>, rank: nat)
    requires rank < |hosts|
    ensures hosts[rank] in hosts[..|hosts|]
    ensures |NodeRanks(hosts, hosts[rank], |hosts|)| > 0
    ensures NodeRanks(hosts, hosts[rank], |hosts|)[0] == FirstOn(hosts, hosts[rank], |hosts|)
  {
    var p := hosts[rank];
    assert hosts[..|hosts|] == hosts;
    var r := NodeRanks(hosts, p, |hosts|);
    var f := FirstOn(hosts, p, |hosts|);
    NodeRanksComplete(hosts, p, |hosts|, f);
    NodeRanksComplete(hosts, p, |hosts|, rank);
  }

  /** `set(comm.allgather(node_master))`: the node master of every rank. */
  function ClusterRanks(hosts: seq<string>): set<nat>
  {
    assert hosts[..|hosts|] == hosts;
    set r | 0 <= r < |hosts| :: FirstOn(hosts, hosts[r], |hosts|)
  }

  /** The cluster holds exactly one node master per distinct host name. */
  lemma ClusterOnePerHost(hosts: seq<string>, p: string)
    requires p in hosts
    ensures exists m :: m in ClusterRanks(hosts) && m < |hosts| && hosts[m] == p
    ensures forall m, m' ::
      m in ClusterRanks(hosts) && m' in ClusterRanks(hosts) && m < |hosts| && m' < |hosts| && hosts[m] == p && hosts[m'] == p
      ==> m == m'
  {
    assert hosts[..|hosts|] == hosts;
    var i :| 0 <= i < |hosts| && hosts[i] == p;
    assert FirstOn(hosts, hosts[i], |hosts|) in ClusterRanks(hosts);
    forall m, m' | m in ClusterRanks(hosts) && m' in ClusterRanks(hosts) && m < |hosts| && m' < |hosts| &&
      hosts[m] == p && hosts[m'] == p
      ensures m == m'
    {
      var r :| 0 <= r < |hosts| && m == FirstOn(hosts, hosts[r], |hosts|);
      var r' :| 0 <= r' < |hosts| && m' == FirstOn(hosts, hosts[r'], |hosts|);
    }
  }
}
