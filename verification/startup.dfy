/**
 * The decisions the binary takes while starting up and keeping itself
 * registered: the capture offset of the UDP payload for the link type, the
 * capture filter, the register loop's handling of each response, the wait
 * for the first region map, and the choice of the nearest region and of
 * the send-back addresses.
 */
module Startup {
  import opened Wrappers
  import opened Args
  import opened Text
  import opened ZdnPing
  import opened Utils

  /** Link-layer header types of the capture handle. */
  const LINKTYPE_NULL: int := 0
  const LINKTYPE_ETHERNET: int := 1

  const ETHERNET_HEADER: nat := 14
  const NULL_HEADER: nat := 4

  /** An IPv4 header without options (section 3.1 of RFC 791). */
  const IPV4_HEADER: nat := 20

  /** The UDP header (RFC 768). */
  const UDP_HEADER: nat := 8

  /** The link header length, and whether the unknown-link-type warning is logged. */
  datatype LinkHeader = LinkHeader(length: nat, warned: bool)

  function HeaderLength(linkType: int): (h: LinkHeader)
    ensures h.length == if linkType == LINKTYPE_ETHERNET then ETHERNET_HEADER else NULL_HEADER
    ensures h.warned <==> linkType != LINKTYPE_ETHERNET && linkType != LINKTYPE_NULL
  {
    match linkType
    case 1 => LinkHeader(ETHERNET_HEADER, false)
    case 0 => LinkHeader(NULL_HEADER, false)
    case _ => LinkHeader(NULL_HEADER, true)
  }

  /** Where the UDP payload starts in a captured frame. */
  function PayloadOffset(linkType: int): (offset: nat)
    ensures offset == 42 || offset == 32
    ensures offset == 42 <==> linkType == LINKTYPE_ETHERNET
  {
    HeaderLength(linkType).length + IPV4_HEADER + UDP_HEADER
  }

  /**
   * For a frame made of a link header of the expected length, an option-less
   * IPv4 header and a UDP header, the payload offset lands exactly on the
   * UDP payload: 42 bytes in for Ethernet, 32 otherwise.
   */
  lemma PayloadOffsetSkipsHeaders(linkType: int, link: seq<bv8>, ip: seq<bv8>, udp: seq<bv8>, payload: seq<bv8>)
    requires |link| == HeaderLength(linkType).length && |ip| == IPV4_HEADER && |udp| == UDP_HEADER
    ensures (link + ip + udp + payload)[PayloadOffset(linkType)..] == payload
    ensures PayloadOffset(linkType) == if linkType == LINKTYPE_ETHERNET then 42 else 32
  {
    assert link + ip + udp + payload == (link + ip + udp) + payload;
  }

  function ProtocolName(p: Protocol): (name: string)
    ensures |name| == 3
  {
    match p
    case Udp => "udp"
    case Tcp => "tcp"
  }

  const DST_PORT: string := " dst port "

  /** The BPF capture filter: `"<proto> dst port <port>"`. */
  function PcapFilter(p: Protocol, port: nat): (filter: string)
    ensures |filter| > 13
    ensures filter[..3] == ProtocolName(p) && filter[3..13] == DST_PORT
  {
    ProtocolName(p) + DST_PORT + Decimal(port)
  }

  /** The filter names the protocol and the port, and nothing else: both can be read back. */
  lemma PcapFilterRoundTrip(p: Protocol, port: nat)
    ensures PcapFilter(p, port)[..3] == ProtocolName(p)
    ensures PcapFilter(p, port)[3..13] == DST_PORT
    ensures var digits := PcapFilter(p, port)[13..];
      (forall i :: 0 <= i < |digits| ==> IsDigit(digits[i])) && DecimalValue(digits) == port
  {
    var f := PcapFilter(p, port);
    assert f[13..] == Decimal(port);
    DecimalRoundTrip(port);
  }

  /** Different settings give different filters. */
  lemma PcapFilterInjective(p: Protocol, port: nat, q: Protocol, port': nat)
    requires PcapFilter(p, port) == PcapFilter(q, port')
    ensures p == q && port == port'
  {
    PcapFilterRoundTrip(p, port);
    PcapFilterRoundTrip(q, port');
    assert ProtocolName(p) == ProtocolName(q);
  }

  /** The region sent while asking the server for its region map. */
  const REQUEST_REGION: string := "request-region"

  /**
   * What one round of the register loop got back: no channel to the server,
   * a response with the server's region-to-host map, or an error status.
   */
  datatype Reply = Unreachable | Accepted(regionHostMap: map<string, string>) | Rejected(message: string)

  /**
   * One round of the register loop: the region read from the shared state,
   * the reply, and the shred counter before and after the 3-second sleep.
   */
  datatype Round = Round(region: string, reply: Reply, counterBefore: nat, counterAfter: nat)

  /** The process exit code an error status calls for, if any; the checks go in this order. */
  function ExitCode(message: string): (code: Option<int>)
    ensures code == Some(1) <==> Contains(message, "ipv6")
    ensures code == Some(2) <==> !Contains(message, "ipv6") && Contains(message, "auth_key")
    ensures code == Some(3) <==> !Contains(message, "ipv6") && !Contains(message, "auth_key") && Contains(message, "limit")
    ensures code.None? <==> !Contains(message, "ipv6") && !Contains(message, "auth_key") && !Contains(message, "limit")
  {
    if Contains(message, "ipv6") then Some(1)
    else if Contains(message, "auth_key") then Some(2)
    else if Contains(message, "limit") then Some(3)
    else None
  }

  function RoundExit(r: Round): Option<int>
  {
    if r.reply.Rejected? then ExitCode(r.reply.message) else None
  }

  /** A round that registers: a successful response to a real region. */
  predicate Registers(r: Round)
  {
    r.reply.Accepted? && r.region != REQUEST_REGION
  }

  /** A round whose response carries a region map. */
  predicate CarriesMap(r: Round)
  {
    r.reply.Accepted? && r.reply.regionHostMap != map[]
  }

  /** The index of the first round at or after `from` that registers, or `|rounds|`. */
  function FirstRegistrationFrom(rounds: seq<Round>, from: nat): (k: nat)
    requires from <= |rounds|
    ensures from <= k <= |rounds|
    ensures k < |rounds| ==> Registers(rounds[k])
    ensures forall i :: from <= i < k ==> !Registers(rounds[i])
    decreases |rounds| - from
  {
    if from == |rounds| || Registers(rounds[from]) then from
    else FirstRegistrationFrom(rounds, from + 1)
  }

  /** The index of the first round that registers, or `|rounds|` when none does. */
  function FirstRegistration(rounds: seq<Round>): (k: nat)
    ensures k <= |rounds|
    ensures k < |rounds| ==> Registers(rounds[k])
    ensures forall i :: 0 <= i < k ==> !Registers(rounds[i])
  {
    FirstRegistrationFrom(rounds, 0)
  }

  /** The index of the last of the first `n` rounds that carried a map, or -1 when none did. */
  function LastCarrier(rounds: seq<Round>, n: nat): (k: int)
    requires n <= |rounds|
    ensures -1 <= k < n
    ensures k >= 0 ==> CarriesMap(rounds[k])
    ensures forall i :: k < i < n ==> !CarriesMap(rounds[i])
    decreases n
  {
    if n == 0 then -1
    else if CarriesMap(rounds[n - 1]) then n - 1
    else LastCarrier(rounds, n - 1)
  }

  /**
   * The shared region map after the first `n` rounds, starting from the
   * empty map: each response with a non-empty map replaces it wholesale.
   */
  function LatestMap(rounds: seq<Round>, n: nat): map<string, string>
    requires n <= |rounds|
  {
    var k := LastCarrier(rounds, n);
    if k < 0 then map[] else rounds[k].reply.regionHostMap
  }

  /**
   * The map is empty while no round carried one, and otherwise it is the map
   * of the last round that did.
   */
  lemma LatestMapSource(rounds: seq<Round>, n: nat)
    requires n <= |rounds|
    ensures LatestMap(rounds, n) == map[] <==> forall i :: 0 <= i < n ==> !CarriesMap(rounds[i])
    ensures LatestMap(rounds, n) != map[] ==>
      exists k :: (0 <= k < n && CarriesMap(rounds[k]) && LatestMap(rounds, n) == rounds[k].reply.regionHostMap &&
        forall i :: k < i < n ==> !CarriesMap(rounds[i]))
  {
    var k := LastCarrier(rounds, n);
    if k >= 0 {
      assert CarriesMap(rounds[k]);
    }
  }

  /** One more round: a carried map replaces the map, any other round keeps it. */
  lemma LatestMapStep(rounds: seq<Round>, n: nat)
    requires n < |rounds|
    ensures LatestMap(rounds, n + 1) ==
      if CarriesMap(rounds[n]) then rounds[n].reply.regionHostMap else LatestMap(rounds, n)
  {
  }

  /** The state the register task keeps across rounds. */
  datatype Registration = Registration(isRegistered: bool, regionMap: map<string, string>)

  /**
   * The register loop over a finite run of rounds. It stops early when an
   * error status calls for an exit. `announcements` lists the rounds that
   * logged "Registered", `warnings` those that logged "No recent shreds".
   */
  method RegisterLoop(rounds: seq<Round>)
    returns (st: Registration, exit: Option<int>, completed: nat, announcements: seq<nat>, warnings: seq<nat>)
    ensures completed <= |rounds|
    ensures exit.None? ==> completed == |rounds|
    ensures exit.Some? ==> completed > 0 && exit == RoundExit(rounds[completed - 1])
    ensures forall i :: 0 <= i < completed && (exit.None? || i < completed - 1) ==> RoundExit(rounds[i]).None?
    ensures st.isRegistered <==> exists i :: 0 <= i < completed && Registers(rounds[i])
    ensures |announcements| <= 1 && (|announcements| == 1 <==> st.isRegistered)
    ensures |announcements| == 1 ==>
      var k := announcements[0];
      k < completed && Registers(rounds[k]) && forall i :: 0 <= i < k ==> !Registers(rounds[i])
    ensures st.regionMap == LatestMap(rounds, completed)
    ensures forall i :: i in warnings <==>
      0 <= i < completed && RoundExit(rounds[i]).None? && rounds[i].counterBefore == rounds[i].counterAfter
  {
    st := Registration(false, map[]);
    exit := None;
    completed := 0;
    announcements, warnings := [], [];
    while completed < |rounds| && exit.None?
      invariant completed <= |rounds|
      invariant exit.Some? ==> completed > 0 && exit == RoundExit(rounds[completed - 1])
      invariant forall i :: 0 <= i < completed && (exit.None? || i < completed - 1) ==> RoundExit(rounds[i]).None?
      invariant st.isRegistered <==> FirstRegistration(rounds) < completed
      invariant announcements == if st.isRegistered then [FirstRegistration(rounds)] else []
      invariant st.regionMap == LatestMap(rounds, completed)
      invariant forall i :: i in warnings <==>
        0 <= i < completed && RoundExit(rounds[i]).None? && rounds[i].counterBefore == rounds[i].counterAfter
    {
      var round := rounds[completed];
      match round.reply {
        case Unreachable =>
        case Accepted(regionHostMap) =>
          if round.region != REQUEST_REGION && !st.isRegistered {
            st := st.(isRegistered := true);
            announcements := announcements + [completed];
          }
          if regionHostMap != map[] {
            st := st.(regionMap := regionHostMap);
          }
        case Rejected(message) =>
          exit := ExitCode(message);
      }
      if exit.None? && round.counterBefore == round.counterAfter {
        warnings := warnings + [completed];
      }
      LatestMapStep(rounds, completed);
      completed := completed + 1;
    }
    if st.isRegistered {
      assert Registers(rounds[FirstRegistration(rounds)]);
    }
  }

  /**
   * The startup wait: poll the shared map every 300 ms until it is non-empty.
   * `polls` are the successive readings; `None` means still waiting after all of them.
   */
  method AwaitRegionMap(polls: seq<map<string, string>>) returns (found: Option<nat>)
    ensures found.None? ==> forall i :: 0 <= i < |polls| ==> polls[i] == map[]
    ensures found.Some? ==> found.value < |polls| && polls[found.value] != map[]
    ensures found.Some? ==> forall i :: 0 <= i < found.value ==> polls[i] == map[]
  {
    var i := 0;
    while i < |polls|
      invariant 0 <= i <= |polls|
      invariant forall j :: 0 <= j < i ==> polls[j] == map[]
    {
      if polls[i] != map[] {
        return Some(i);
      }
      i := i + 1;
    }
    return None;
  }

  /** How many of the nearest regions get send-back addresses. */
  const NEAREST_N: nat := 3

  /** The region written back for registering, and the sniffer's send-back addresses. */
  datatype Choice = Choice(region: string, sendBackAddrs: seq<SocketAddr>)

  /**
   * Rank the regions, write back the first (indexing an empty ranking
   * panics: `None`), and resolve the nearest three.
   */
  method ChooseRegions(regionMap: HostMap, order: seq<string>, ping: string -> Option<nat>,
                       resolve: string -> Option<seq<IpAddr>>)
    returns (choice: Option<Choice>, sorted: seq<string>)
    requires IsIterationOrder(order, regionMap)
    ensures choice.None? <==> forall k :: k in regionMap ==> !Reachable(regionMap, ping, k)
    ensures forall k :: Reachable(regionMap, ping, k) <==> k in sorted
    ensures Distinct(sorted)
    ensures choice.Some? ==> |sorted| > 0 && choice.value.region == sorted[0]
    ensures choice.Some? ==> Reachable(regionMap, ping, choice.value.region)
    ensures choice.Some? ==> forall k :: Reachable(regionMap, ping, k) ==>
      Latency(regionMap, ping, choice.value.region) <= Latency(regionMap, ping, k)
    ensures choice.Some? ==>
      Latency(regionMap, ping, choice.value.region) == Latency(regionMap, ping, FindNearestRegion(regionMap, order, ping).value)
    ensures choice.Some? ==>
      choice.value.sendBackAddrs == ResolvedAddrs(regionMap, resolve, sorted[..Min(NEAREST_N, |sorted|)])
  {
    sorted := SortRegions(regionMap, order, ping);
    if |sorted| == 0 {
      return None, sorted;
    }
    var addrs := ResolveNearestNRegionAddrs(regionMap, sorted, NEAREST_N, resolve);
    choice := Some(Choice(sorted[0], addrs));
  }
}
