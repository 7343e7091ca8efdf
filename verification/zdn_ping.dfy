/**
 * Region ranking. Every region of the server's region-to-host map is
 * pinged; the regions that answered are ranked by average latency, the
 * nearest one is chosen, and the hosts of the first few ranked regions are
 * resolved into send-back addresses on port 8002.
 *
 * Running `ping` and resolving host names are outside the model: `ping` is
 * a function from a host to the rounded average latency in milliseconds
 * (if any) and `resolve` one from a host to its IP addresses (if it
 * resolves). The order in which the parallel pings push their results is
 * an input, `order`, listing every region once.
 */
module ZdnPing {
  import opened Wrappers
  import opened Args
  import opened Text
  import opened Utils

  /** The send-back port every resolved address gets. */
  const SEND_BACK_PORT: nat := 8002

  /** `ping -c 4`. */
  const PING_COUNT: nat := 4

  type HostMap = map<string, string>

  /** A `(region, ms)` pair pushed by a ping that produced a latency. */
  datatype Measurement = Measurement(region: string, ms: nat)

  /** No element occurs twice. */
  predicate Distinct<T(==)>(xs: seq<T>)
  {
    forall i, j :: 0 <= i < j < |xs| ==> xs[i] != xs[j]
  }

  /** `order` lists every key of the map exactly once. */
  ghost predicate IsIterationOrder(order: seq<string>, hostMap: HostMap)
  {
    && (forall k :: k in hostMap <==> k in order)
    && Distinct(order)
  }

  /** No two measurements are of the same region. */
  predicate DistinctRegions(ms: seq<Measurement>)
  {
    forall i, j :: 0 <= i < j < |ms| ==> ms[i].region != ms[j].region
  }

  /** A region whose host answered the ping. */
  predicate Reachable(hostMap: HostMap, ping: string -> Option<nat>, region: string)
  {
    region in hostMap && ping(hostMap[region]).Some?
  }

  function Latency(hostMap: HostMap, ping: string -> Option<nat>, region: string): nat
    requires Reachable(hostMap, ping, region)
  {
    ping(hostMap[region]).value
  }

  /** The measurements the pings push, in the order they finish. */
  function Measure(hostMap: HostMap, order: seq<string>, ping: string -> Option<nat>): (ms: seq<Measurement>)
    ensures forall i :: 0 <= i < |ms| ==>
      Reachable(hostMap, ping, ms[i].region) && ms[i].ms == Latency(hostMap, ping, ms[i].region)
    ensures forall k :: k in order && Reachable(hostMap, ping, k) ==> k in Regions(ms)
    ensures forall k :: k in Regions(ms) ==> k in order
    decreases |order|
  {
    if order == [] then []
    else
      var rest := Measure(hostMap, order[1..], ping);
      var k := order[0];
      if Reachable(hostMap, ping, k) then
        var ms := [Measurement(k, Latency(hostMap, ping, k))] + rest;
        assert Regions(ms) == [k] + Regions(rest);
        ms
      else
        assert forall r :: r in order && r != k ==> r in order[1..];
        assert forall r :: r in order[1..] ==> r in order;
        rest
  }

  /** The tail of a sequence without repeats has none, and lacks the head. */
  lemma DistinctTail<T>(xs: seq<T>)
    requires |xs| > 0 && Distinct(xs)
    ensures Distinct(xs[1..]) && xs[0] !in xs[1..]
  {
    var tail := xs[1..];
    forall i | 0 <= i < |tail|
      ensures tail[i] != xs[0]
    {
      assert tail[i] == xs[i + 1];
    }
    forall i, j | 0 <= i < j < |tail|
      ensures tail[i] != tail[j]
    {
      assert tail[i] == xs[i + 1] && tail[j] == xs[j + 1];
    }
  }

  /** Prepending a measurement of a region not yet present keeps the regions distinct. */
  lemma ConsDistinctRegions(m: Measurement, rest: seq<Measurement>)
    requires DistinctRegions(rest) && m.region !in Regions(rest)
    ensures DistinctRegions([m] + rest)
  {
    var ms := [m] + rest;
    forall i, j | 0 <= i < j < |ms|
      ensures ms[i].region != ms[j].region
    {
      assert ms[j] == rest[j - 1];
      if i == 0 {
        assert Regions(rest)[j - 1] == ms[j].region;
      } else {
        assert ms[i] == rest[i - 1];
      }
    }
  }

  /** Each region of an order without repeats is measured at most once. */
  lemma {:induction false} MeasureDistinct(hostMap: HostMap, order: seq<string>, ping: string -> Option<nat>)
    requires Distinct(order)
    ensures DistinctRegions(Measure(hostMap, order, ping))
    decreases |order|
  {
    if order != [] {
      DistinctTail(order);
      MeasureDistinct(hostMap, order[1..], ping);
      var k := order[0];
      if Reachable(hostMap, ping, k) {
        ConsDistinctRegions(Measurement(k, Latency(hostMap, ping, k)), Measure(hostMap, order[1..], ping));
      }
    }
  }

  /**
   * `min_by_key(|(_, ms)| ms)`: the index of the first measurement of least
   * latency. On ties the earlier one is kept.
   */
  function FirstMinimal(ms: seq<Measurement>): (i: nat)
    requires |ms| > 0
    ensures i < |ms|
    ensures forall j :: 0 <= j < |ms| ==> ms[i].ms <= ms[j].ms
    ensures forall j :: 0 <= j < i ==> ms[j].ms > ms[i].ms
    decreases |ms|
  {
    if |ms| == 1 then 0
    else
      var k := FirstMinimal(ms[..|ms| - 1]);
      if ms[|ms| - 1].ms < ms[k].ms then |ms| - 1 else k
  }

  /**
   * `find_nearest_region`: `None` exactly when no host answered; otherwise a
   * region whose latency is no larger than that of any region that answered.
   */
  function FindNearestRegion(hostMap: HostMap, order: seq<string>, ping: string -> Option<nat>): (r: Option<string>)
    requires IsIterationOrder(order, hostMap)
    ensures r.None? <==> forall k :: k in hostMap ==> !Reachable(hostMap, ping, k)
    ensures r.Some? ==> Reachable(hostMap, ping, r.value)
    ensures r.Some? ==> forall k :: Reachable(hostMap, ping, k) ==>
      Latency(hostMap, ping, r.value) <= Latency(hostMap, ping, k)
  {
    var ms := Measure(hostMap, order, ping);
    if |ms| == 0 then None
    else
      var i := FirstMinimal(ms);
      assert forall k :: Reachable(hostMap, ping, k) ==> k in Regions(ms);
      Some(ms[i].region)
  }

  /** Measurements in non-decreasing order of latency. */
  predicate SortedByLatency(ms: seq<Measurement>)
  {
    forall i, j :: 0 <= i < j < |ms| ==> ms[i].ms <= ms[j].ms
  }

  method Swap(a: array<Measurement>, p: nat, q: nat)
    requires p < a.Length && q < a.Length
    modifies a
    ensures a[p] == old(a[q]) && a[q] == old(a[p])
    ensures forall k :: 0 <= k < a.Length && k != p && k != q ==> a[k] == old(a[k])
    ensures multiset(a[..]) == multiset(old(a[..]))
  {
    a[p], a[q] := a[q], a[p];
  }

  /** Moves `a[i]` left past every larger element; `a[..i]` is already sorted. */
  method InsertLast(a: array<Measurement>, i: nat)
    requires i < a.Length
    requires forall p, q :: 0 <= p < q < i ==> a[p].ms <= a[q].ms
    modifies a
    ensures forall p, q :: 0 <= p < q <= i ==> a[p].ms <= a[q].ms
    ensures forall p :: i < p < a.Length ==> a[p] == old(a[p])
    ensures multiset(a[..]) == multiset(old(a[..]))
  {
    var j := i;
    while j > 0 && a[j - 1].ms > a[j].ms
      invariant 0 <= j <= i
      invariant forall p, q :: 0 <= p < q <= i && q != j ==> a[p].ms <= a[q].ms
      invariant forall p :: i < p < a.Length ==> a[p] == old(a[p])
      invariant multiset(a[..]) == multiset(old(a[..]))
    {
      Swap(a, j - 1, j);
      j := j - 1;
    }
  }

  /** `sort_by_key(|(_, ms)| ms)`, done in place by insertion. */
  method SortByLatency(a: array<Measurement>)
    modifies a
    ensures SortedByLatency(a[..])
    ensures multiset(a[..]) == multiset(old(a[..]))
  {
    var i := 0;
    while i < a.Length
      invariant 0 <= i <= a.Length
      invariant forall p, q :: 0 <= p < q < i ==> a[p].ms <= a[q].ms
      invariant multiset(a[..]) == multiset(old(a[..]))
    {
      InsertLast(a, i);
      i := i + 1;
    }
  }

  /** A reordering of measurements keeps each region's latency and the set of regions. */
  lemma PermutedMeasurements(hostMap: HostMap, ping: string -> Option<nat>, ms: seq<Measurement>, s: seq<Measurement>)
    requires multiset(s) == multiset(ms)
    requires forall i :: 0 <= i < |ms| ==>
      Reachable(hostMap, ping, ms[i].region) && ms[i].ms == Latency(hostMap, ping, ms[i].region)
    ensures forall i :: 0 <= i < |s| ==>
      Reachable(hostMap, ping, s[i].region) && s[i].ms == Latency(hostMap, ping, s[i].region)
    ensures forall k :: k in Regions(ms) ==> k in Regions(s)
  {
    forall i | 0 <= i < |s|
      ensures Reachable(hostMap, ping, s[i].region) && s[i].ms == Latency(hostMap, ping, s[i].region)
    {
      assert s[i] in multiset(ms);
    }
    forall k | k in Regions(ms)
      ensures k in Regions(s)
    {
      var j :| 0 <= j < |ms| && Regions(ms)[j] == k;
      assert ms[j] in multiset(s);
      var i :| 0 <= i < |s| && s[i] == ms[j];
      assert Regions(s)[i] == k;
    }
  }

  /** With no region twice, no measurement occurs more than once. */
  lemma {:induction false} DistinctRegionsOccurOnce(ms: seq<Measurement>, m: Measurement)
    requires DistinctRegions(ms)
    ensures multiset(ms)[m] <= 1
    decreases |ms|
  {
    if ms != [] {
      var rest := ms[1..];
      assert ms == [ms[0]] + rest;
      assert DistinctRegions(rest) by {
        forall i, j | 0 <= i < j < |rest|
          ensures rest[i].region != rest[j].region
        {
          assert rest[i] == ms[i + 1] && rest[j] == ms[j + 1];
        }
      }
      DistinctRegionsOccurOnce(rest, m);
      if m == ms[0] {
        assert m !in rest by {
          forall i | 0 <= i < |rest|
            ensures rest[i] != m
          {
            assert rest[i] == ms[i + 1];
          }
        }
      }
    }
  }

  /** An element found at two positions occurs at least twice. */
  lemma TwiceAtTwoPositions(s: seq<Measurement>, i: nat, j: nat)
    requires i < j < |s| && s[i] == s[j]
    ensures multiset(s)[s[i]] >= 2
  {
    assert s == s[..j] + [s[j]] + s[j + 1..];
    assert s[..j][i] == s[i];
    assert s[i] in multiset(s[..j]);
  }

  /** A reordering of measurements of distinct regions still has distinct regions. */
  lemma PermutationKeepsDistinctRegions(ms: seq<Measurement>, s: seq<Measurement>)
    requires multiset(s) == multiset(ms) && DistinctRegions(ms)
    ensures DistinctRegions(s)
  {
    forall i, j | 0 <= i < j < |s|
      ensures s[i].region != s[j].region
    {
      if s[i].region == s[j].region {
        assert s[i] in multiset(ms) && s[j] in multiset(ms);
        var p :| 0 <= p < |ms| && ms[p] == s[i];
        var q :| 0 <= q < |ms| && ms[q] == s[j];
        assert p == q;
        TwiceAtTwoPositions(s, i, j);
        DistinctRegionsOccurOnce(ms, s[i]);
        assert false;
      }
    }
  }

  /** `.map(|(region, _)| region)`. */
  function Regions(ms: seq<Measurement>): (rs: seq<string>)
    ensures |rs| == |ms| && forall i :: 0 <= i < |ms| ==> rs[i] == ms[i].region
  {
    seq(|ms|, i requires 0 <= i < |ms| => ms[i].region)
  }

  /**
   * `sort_regions`: the regions that answered, in non-decreasing order of
   * latency. Regions whose ping failed are left out; every region in the
   * result is a key of the map.
   */
  method SortRegions(hostMap: HostMap, order: seq<string>, ping: string -> Option<nat>) returns (sorted: seq<string>)
    requires IsIterationOrder(order, hostMap)
    ensures forall i :: 0 <= i < |sorted| ==> Reachable(hostMap, ping, sorted[i])
    ensures forall k :: Reachable(hostMap, ping, k) <==> k in sorted
    ensures forall i, j :: 0 <= i < j < |sorted| ==>
      Latency(hostMap, ping, sorted[i]) <= Latency(hostMap, ping, sorted[j])
    ensures Distinct(sorted)
  {
    var ms := Measure(hostMap, order, ping);
    var a := new Measurement[|ms|](i requires 0 <= i < |ms| => ms[i]);
    assert a[..] == ms;
    SortByLatency(a);
    var s := a[..];
    PermutedMeasurements(hostMap, ping, ms, s);
    MeasureDistinct(hostMap, order, ping);
    PermutationKeepsDistinctRegions(ms, s);
    sorted := Regions(s);
  }

  /** The send-back addresses of one region: none when it is not in the map or does not resolve. */
  function RegionAddrs(hostMap: HostMap, resolve: string -> Option<seq<IpAddr>>, region: string): (addrs: seq<SocketAddr>)
    ensures forall a :: a in addrs ==> a.port == SEND_BACK_PORT
    ensures region !in hostMap || resolve(hostMap[region]).None? ==> addrs == []
  {
    if region in hostMap && resolve(hostMap[region]).Some? then
      var ips := resolve(hostMap[region]).value;
      seq(|ips|, i requires 0 <= i < |ips| => SocketAddr(ips[i], SEND_BACK_PORT))
    else []
  }

  /** The in-order concatenation of the regions' send-back addresses. */
  function ResolvedAddrs(hostMap: HostMap, resolve: string -> Option<seq<IpAddr>>, regions: seq<string>): seq<SocketAddr>
    decreases |regions|
  {
    if regions == [] then []
    else ResolvedAddrs(hostMap, resolve, regions[..|regions| - 1]) + RegionAddrs(hostMap, resolve, regions[|regions| - 1])
  }

  /** Every resolved send-back address is on port 8002. */
  lemma {:induction false} ResolvedAddrsPort(hostMap: HostMap, resolve: string -> Option<seq<IpAddr>>, regions: seq<string>)
    ensures forall a :: a in ResolvedAddrs(hostMap, resolve, regions) ==> a.port == SEND_BACK_PORT
    decreases |regions|
  {
    if regions != [] {
      ResolvedAddrsPort(hostMap, resolve, regions[..|regions| - 1]);
    }
  }

  lemma {:induction false} ResolvedAddrsAppend(hostMap: HostMap, resolve: string -> Option<seq<IpAddr>>, a: seq<string>, b: seq<string>)
    ensures ResolvedAddrs(hostMap, resolve, a + b) == ResolvedAddrs(hostMap, resolve, a) + ResolvedAddrs(hostMap, resolve, b)
    decreases |b|
  {
    if b == [] {
      assert a + b == a;
    } else {
      var b' := b[..|b| - 1];
      var last := b[|b| - 1];
      assert (a + b)[..|a + b| - 1] == a + b';
      assert (a + b)[|a + b| - 1] == last;
      ResolvedAddrsAppend(hostMap, resolve, a, b');
      calc {
        ResolvedAddrs(hostMap, resolve, a + b);
        ResolvedAddrs(hostMap, resolve, a + b') + RegionAddrs(hostMap, resolve, last);
        (ResolvedAddrs(hostMap, resolve, a) + ResolvedAddrs(hostMap, resolve, b')) + RegionAddrs(hostMap, resolve, last);
        ResolvedAddrs(hostMap, resolve, a) + (ResolvedAddrs(hostMap, resolve, b') + RegionAddrs(hostMap, resolve, last));
        ResolvedAddrs(hostMap, resolve, a) + ResolvedAddrs(hostMap, resolve, b);
      }
    }
  }

  /**
   * A region that is missing from the map or does not resolve contributes
   * no address and leaves the others' addresses where they were.
   */
  lemma UnresolvedRegionContributesNothing(hostMap: HostMap, resolve: string -> Option<seq<IpAddr>>,
                                           a: seq<string>, region: string, b: seq<string>)
    requires region !in hostMap || resolve(hostMap[region]).None?
    ensures ResolvedAddrs(hostMap, resolve, a + [region] + b) == ResolvedAddrs(hostMap, resolve, a + b)
  {
    var ar := a + [region];
    assert a + [region] + b == ar + b;
    ResolvedAddrsAppend(hostMap, resolve, ar, b);
    ResolvedAddrsAppend(hostMap, resolve, a, [region]);
    ResolvedAddrsSingle(hostMap, resolve, region);
    ResolvedAddrsAppend(hostMap, resolve, a, b);
  }

  /** A single region contributes exactly its own addresses. */
  lemma ResolvedAddrsSingle(hostMap: HostMap, resolve: string -> Option<seq<IpAddr>>, region: string)
    ensures ResolvedAddrs(hostMap, resolve, [region]) == RegionAddrs(hostMap, resolve, region)
  {
    assert [region][..0] == [];
  }

  /** Every address comes from a resolved host of one of the regions. */
  lemma {:induction false} ResolvedAddrsOrigin(hostMap: HostMap, resolve: string -> Option<seq<IpAddr>>, regions: seq<string>, x: SocketAddr)
    requires x in ResolvedAddrs(hostMap, resolve, regions)
    ensures exists r :: r in regions && r in hostMap && resolve(hostMap[r]).Some? && x.ip in resolve(hostMap[r]).value
    decreases |regions|
  {
    var init := regions[..|regions| - 1];
    var last := regions[|regions| - 1];
    if x in ResolvedAddrs(hostMap, resolve, init) {
      ResolvedAddrsOrigin(hostMap, resolve, init, x);
      var r :| r in init && r in hostMap && resolve(hostMap[r]).Some? && x.ip in resolve(hostMap[r]).value;
      assert r in regions;
    } else {
      var ips := resolve(hostMap[last]).value;
      var i :| 0 <= i < |ips| && RegionAddrs(hostMap, resolve, last)[i] == x;
      assert x.ip == ips[i];
    }
  }

  /**
   * `resolve_nearest_n_region_addrs`: only the first `n` ranked regions are
   * considered, in order, and their addresses are concatenated.
   */
  method ResolveNearestNRegionAddrs(hostMap: HostMap, sortedRegions: seq<string>, n: nat,
                                    resolve: string -> Option<seq<IpAddr>>) returns (result: seq<SocketAddr>)
    ensures result == ResolvedAddrs(hostMap, resolve, sortedRegions[..Min(n, |sortedRegions|)])
  {
    var limit := Min(n, |sortedRegions|);
    result := [];
    var i := 0;
    while i < limit
      invariant 0 <= i <= limit
      invariant result == ResolvedAddrs(hostMap, resolve, sortedRegions[..i])
    {
      var region := sortedRegions[i];
      assert sortedRegions[..i + 1][..i] == sortedRegions[..i];
      assert ResolvedAddrs(hostMap, resolve, sortedRegions[..i + 1]) ==
        ResolvedAddrs(hostMap, resolve, sortedRegions[..i]) + RegionAddrs(hostMap, resolve, region);
      if region in hostMap {
        var resolved := resolve(hostMap[region]);
        if resolved.Some? {
          var ips := resolved.value;
          var j := 0;
          ghost var before := result;
          ghost var addrs := RegionAddrs(hostMap, resolve, region);
          while j < |ips|
            invariant 0 <= j <= |ips|
            invariant result == before + addrs[..j]
          {
            assert addrs[..j + 1] == addrs[..j] + [SocketAddr(ips[j], SEND_BACK_PORT)];
            result := result + [SocketAddr(ips[j], SEND_BACK_PORT)];
            j := j + 1;
          }
          assert addrs[..|ips|] == addrs;
        }
      }
      i := i + 1;
    }
  }

  /** A line of `ping` output that may carry the summary statistics. */
  predicate IsRttLine(line: string)
  {
    Contains(line, "rtt") || Contains(line, "round-trip")
  }

  /**
   * The second '/'-separated field after the first '=' of a line, when the
   * line has an '=' and that part has at least two fields.
   */
  function AvgField(line: string): (f: Option<string>)
    ensures f.Some? ==> '/' !in f.value && '=' !in f.value
  {
    var parts := Split(line, '=');
    if |parts| >= 2 then
      var stats := Split(Trim(parts[1]), '/');
      if |stats| >= 2 then
        assert '=' !in stats[1] by {
          SplitJoin(Trim(parts[1]), '/');
          JoinKeepsChars(stats, '/', 1);
        }
        Some(stats[1])
      else None
    else None
  }

  /**
   * A line has an average field exactly when it has an '=' and the trimmed
   * text after the first one holds a '/'; the field is what follows the
   * first '/' up to the next '/' or the end.
   */
  lemma AvgFieldIsSecondStat(line: string)
    ensures AvgField(line).Some? <==> |Split(line, '=')| >= 2 && '/' in Trim(Split(line, '=')[1])
    ensures AvgField(line).Some? ==> exists pre, post ::
      AfterFirst(Trim(Split(line, '=')[1]), '/', AvgField(line).value, pre, post)
  {
    var parts := Split(line, '=');
    if |parts| >= 2 {
      var t := Trim(parts[1]);
      SplitHasSecondPiece(t, '/');
      if '/' in t {
        SecondPiece(t, '/');
        assert AvgField(line) == Some(Split(t, '/')[1]);
      } else {
        assert AvgField(line).None?;
      }
    } else {
      assert AvgField(line).None?;
    }
  }

  lemma {:induction false} JoinKeepsChars(parts: seq<string>, c: char, k: nat)
    requires |parts| >= 1 && k < |parts|
    ensures forall x :: x in parts[k] ==> x in Join(parts, c)
    decreases |parts|
  {
    if |parts| > 1 {
      if k > 0 {
        JoinKeepsChars(parts[1..], c, k - 1);
      }
    }
  }

  /** A line from which `ping_avg_latency` takes its field. */
  predicate HasAvgField(line: string)
  {
    IsRttLine(line) && AvgField(line).Some?
  }

  /** The index of the first line at or after `from` that has a field, or `|lines|` when none has. */
  function FirstAvgLineFrom(lines: seq<string>, from: nat): (i: nat)
    requires from <= |lines|
    ensures from <= i <= |lines|
    ensures i < |lines| ==> HasAvgField(lines[i])
    ensures forall j :: from <= j < i ==> !HasAvgField(lines[j])
    decreases |lines| - from
  {
    if from == |lines| || HasAvgField(lines[from]) then from
    else FirstAvgLineFrom(lines, from + 1)
  }

  /** The index of the first line that has a field, or `|lines|` when none has. */
  function FirstAvgLine(lines: seq<string>): (i: nat)
    ensures i <= |lines|
    ensures i < |lines| ==> HasAvgField(lines[i])
    ensures forall j :: 0 <= j < i ==> !HasAvgField(lines[j])
  {
    FirstAvgLineFrom(lines, 0)
  }

  /** The field `ping_avg_latency` reads: that of the first line that has one. */
  function AvgLatencyField(lines: seq<string>): (f: Option<string>)
    ensures f.Some? ==> '/' !in f.value && '=' !in f.value
    ensures f.Some? ==> exists i :: 0 <= i < |lines| && HasAvgField(lines[i]) && f == AvgField(lines[i])
                                   && forall j :: 0 <= j < i ==> !HasAvgField(lines[j])
  {
    var i := FirstAvgLine(lines);
    if i < |lines| then AvgField(lines[i]) else None
  }

  /** There is no field exactly when no line has one. */
  lemma AvgLatencyFieldNone(lines: seq<string>)
    ensures AvgLatencyField(lines).None? <==> forall j :: 0 <= j < |lines| ==> !HasAvgField(lines[j])
  {
  }

  /** A line with a field and none before it is the first one. */
  lemma FirstAvgLineUnique(lines: seq<string>, i: nat)
    requires i < |lines| && HasAvgField(lines[i])
    requires forall j :: 0 <= j < i ==> !HasAvgField(lines[j])
    ensures FirstAvgLine(lines) == i
  {
  }

  /** The field of a line whose '=' part has two '/'-fields is the second. */
  lemma AvgFieldFound(line: string, parts: seq<string>, stats: seq<string>)
    requires parts == Split(line, '=') && |parts| >= 2
    requires stats == Split(Trim(parts[1]), '/') && |stats| >= 2
    ensures AvgField(line) == Some(stats[1])
  {
  }

  /** A line that fails one of the scan's tests has no field. */
  lemma NoAvgField(line: string)
    requires !IsRttLine(line) || |Split(line, '=')| < 2 || |Split(Trim(Split(line, '=')[1]), '/')| < 2
    ensures !HasAvgField(line)
  {
  }

  /**
   * `ping_avg_latency` after the command has run: scan the lines of its
   * output and convert the first average field found. `parseMs` stands for
   * parsing it as `f64` and rounding.
   */
  method PingAvgLatency(stdout: string, parseMs: string -> Option<nat>) returns (r: Option<nat>)
    ensures AvgLatencyField(Lines(stdout)).None? ==> r.None?
    ensures AvgLatencyField(Lines(stdout)).Some? ==> r == parseMs(AvgLatencyField(Lines(stdout)).value)
  {
    var lines := Lines(stdout);
    var i := 0;
    while i < |lines|
      invariant i <= FirstAvgLine(lines)
    {
      var field := LineAvgField(lines[i]);
      if field.Some? {
        assert FirstAvgLine(lines) == i;
        return parseMs(field.value);
      }
      i := i + 1;
    }
    return None;
  }

  /**
   * The body of the scan for one line: a line mentioning "rtt" or
   * "round-trip" is split at '=', and the trimmed second part at '/'.
   */
  method LineAvgField(line: string) returns (field: Option<string>)
    ensures field.Some? <==> HasAvgField(line)
    ensures field.Some? ==> field == AvgField(line)
  {
    if IsRttLine(line) {
      var parts := Split(line, '=');
      if |parts| >= 2 {
        var stats := Split(Trim(parts[1]), '/');
        if |stats| >= 2 {
          AvgFieldFound(line, parts, stats);
          return Some(stats[1]);
        }
      }
    }
    NoAvgField(line);
    return None;
  }

  /** Output without any "rtt" or "round-trip" line yields no latency. */
  lemma NoSummaryLineMeansNoLatency(lines: seq<string>)
    requires forall i :: 0 <= i < |lines| ==> !IsRttLine(lines[i])
    ensures AvgLatencyField(lines).None?
  {
  }

}
