/**
 * The telemetry counters shared by the receivers and the processor:
 * per-source packets, invalid payloads and first-seen packets, plus the
 * global forwarded count and cumulative processing time. `Report` reads
 * every counter and sets it back to zero, so consecutive reports show deltas.
 */
module Stats {
  import opened Args

  /** A pair of counters indexed by `Source` (the source's `EnumMap<Source, _>`). */
  datatype PerSource = PerSource(zdn: nat, reference: nat)
  {
    function Get(s: Source): nat
    {
      match s
      case Zdn => zdn
      case Reference => reference
    }

    /** Adds `k` to the counter of `s`; the other source's counter is untouched. */
    function Add(s: Source, k: nat): (r: PerSource)
      ensures r.Get(s) == Get(s) + k
      ensures forall t :: t != s ==> r.Get(t) == Get(t)
    {
      match s
      case Zdn => PerSource(zdn + k, reference)
      case Reference => PerSource(zdn, reference + k)
    }
  }

  /** Names one of the eight counters. */
  datatype Counter = Packets(source: Source) | Invalids(source: Source) | Firsts(source: Source) | Forwarded | Nanos

  /** The values of all eight counters at one moment. */
  datatype Snapshot = Snapshot(packets: PerSource, invalids: PerSource, firsts: PerSource, forwarded: nat, nanos: nat)
  {
    function Get(c: Counter): nat
    {
      match c
      case Packets(s) => packets.Get(s)
      case Invalids(s) => invalids.Get(s)
      case Firsts(s) => firsts.Get(s)
      case Forwarded => forwarded
      case Nanos => nanos
    }

    /** `fetch_add(k)` on one counter: that counter grows by `k` and no other changes. */
    function Add(c: Counter, k: nat): (r: Snapshot)
      ensures r.Get(c) == Get(c) + k
      ensures forall d :: d != c ==> r.Get(d) == Get(d)
    {
      match c
      case Packets(s) => this.(packets := packets.Add(s, k))
      case Invalids(s) => this.(invalids := invalids.Add(s, k))
      case Firsts(s) => this.(firsts := firsts.Add(s, k))
      case Forwarded => this.(forwarded := forwarded + k)
      case Nanos => this.(nanos := nanos + k)
    }
  }

  const NoCounts := PerSource(0, 0)
  const Zero := Snapshot(NoCounts, NoCounts, NoCounts, 0, 0)

  /** Every counter of `Zero` reads zero, and it is the only snapshot that does. */
  lemma ZeroIsAllZero(s: Snapshot)
    ensures (forall c :: s.Get(c) == 0) <==> s == Zero
  {
    if forall c :: s.Get(c) == 0 {
      assert s.packets.zdn == s.Get(Packets(Zdn)) && s.packets.reference == s.Get(Packets(Reference));
      assert s.invalids.zdn == s.Get(Invalids(Zdn)) && s.invalids.reference == s.Get(Invalids(Reference));
      assert s.firsts.zdn == s.Get(Firsts(Zdn)) && s.firsts.reference == s.Get(Firsts(Reference));
      assert s.forwarded == s.Get(Forwarded) && s.nanos == s.Get(Nanos);
    }
  }

  /** The shared counters. Each field is an atomic counter in the source. */
  class Stats {
    var packets: PerSource
    var invalids: PerSource
    var firsts: PerSource
    var forwarded: nat
    var nanos: nat

    function Values(): Snapshot
      reads this
    {
      Snapshot(packets, invalids, firsts, forwarded, nanos)
    }

    /** `Stats::new`: every counter starts at zero. */
    constructor ()
      ensures Values() == Zero
      ensures forall c :: Values().Get(c) == 0
    {
      packets, invalids, firsts := NoCounts, NoCounts, NoCounts;
      forwarded, nanos := 0, 0;
      new;
      ZeroIsAllZero(Values());
    }

    /** `fetch_add(k, Relaxed)` on the counter `c`. */
    method FetchAdd(c: Counter, k: nat)
      modifies this
      ensures Values() == old(Values()).Add(c, k)
    {
      match c
      case Packets(s) => packets := packets.Add(s, k);
      case Invalids(s) => invalids := invalids.Add(s, k);
      case Firsts(s) => firsts := firsts.Add(s, k);
      case Forwarded => forwarded := forwarded + k;
      case Nanos => nanos := nanos + k;
    }

    /**
     * `Stats::report`: swaps every counter with zero, one after the other,
     * and returns the values they held. The text formatting is not modelled.
     */
    method Report() returns (r: Snapshot)
      modifies this
      ensures r == old(Values())
      ensures Values() == Zero
      ensures forall c :: Values().Get(c) == 0
    {
      var zdnPacket := packets.zdn;
      packets := packets.(zdn := 0);
      var referencePacket := packets.reference;
      packets := packets.(reference := 0);
      var zdnInvalid := invalids.zdn;
      invalids := invalids.(zdn := 0);
      var referenceInvalid := invalids.reference;
      invalids := invalids.(reference := 0);
      var zdnFirst := firsts.zdn;
      firsts := firsts.(zdn := 0);
      var referenceFirst := firsts.reference;
      firsts := firsts.(reference := 0);
      var fwd := forwarded;
      forwarded := 0;
      var ns := nanos;
      nanos := 0;
      r := Snapshot(PerSource(zdnPacket, referencePacket), PerSource(zdnInvalid, referenceInvalid),
                    PerSource(zdnFirst, referenceFirst), fwd, ns);
      ZeroIsAllZero(Values());
    }

    /** Performs `ops` in order and returns the snapshot of every report. */
    method Perform(ops: seq<StatsOp>) returns (reports: seq<Snapshot>)
      modifies this
      ensures (Values(), reports) == Replay(old(Values()), ops)
    {
      ghost var start := Values();
      reports := [];
      var i := 0;
      assert ops[i..] == ops;
      assert reports + Replay(start, ops).1 == Replay(start, ops).1;
      while i < |ops|
        invariant 0 <= i <= |ops|
        invariant Replay(start, ops).0 == Replay(Values(), ops[i..]).0
        invariant Replay(start, ops).1 == reports + Replay(Values(), ops[i..]).1
      {
        assert ops[i..][1..] == ops[i + 1..];
        ghost var before := Values();
        match ops[i] {
          case Bump(c, k) =>
            FetchAdd(c, k);
          case Drain =>
            var r := Report();
            assert Replay(before, ops[i..]).1 == [r] + Replay(Values(), ops[i + 1..]).1;
            reports := reports + [r];
        }
        i := i + 1;
      }
      assert ops[i..] == [];
      assert Replay(Values(), ops[i..]) == (Values(), []);
      assert reports + [] == reports;
    }
  }

  /** A sequential history of counter updates and reports. */
  datatype StatsOp = Bump(counter: Counter, amount: nat) | Drain

  /** The counter values after `ops`, and the values each report returned, in order. */
  function Replay(s: Snapshot, ops: seq<StatsOp>): (Snapshot, seq<Snapshot>)
    decreases |ops|
  {
    if ops == [] then (s, [])
    else match ops[0]
      case Bump(c, k) => Replay(s.Add(c, k), ops[1..])
      case Drain =>
        var rest := Replay(Zero, ops[1..]);
        (rest.0, [s] + rest.1)
  }

  /** Total amount added to `c` by `ops`. */
  function Added(ops: seq<StatsOp>, c: Counter): nat
    decreases |ops|
  {
    if ops == [] then 0
    else (if ops[0].Bump? && ops[0].counter == c then ops[0].amount else 0) + Added(ops[1..], c)
  }

  /** Sum of counter `c` over a list of reports. */
  function Reported(reports: seq<Snapshot>, c: Counter): nat
    decreases |reports|
  {
    if reports == [] then 0 else reports[0].Get(c) + Reported(reports[1..], c)
  }

  /**
   * Nothing is lost or counted twice: for every counter, what the reports
   * returned plus what is still held equals the starting value plus every
   * increment made.
   */
  lemma {:induction false} ReplayConserves(s: Snapshot, ops: seq<StatsOp>, c: Counter)
    ensures Reported(Replay(s, ops).1, c) + Replay(s, ops).0.Get(c) == s.Get(c) + Added(ops, c)
    decreases |ops|
  {
    if ops != [] {
      match ops[0]
      case Bump(d, k) =>
        ReplayConserves(s.Add(d, k), ops[1..], c);
      case Drain =>
        ReplayConserves(Zero, ops[1..], c);
        var rest := Replay(Zero, ops[1..]);
        assert ([s] + rest.1)[1..] == rest.1;
    }
  }

  /** A history that ends with a report leaves every counter at zero and has reported every increment. */
  lemma ReportedAfterFinalDrain(s: Snapshot, ops: seq<StatsOp>, c: Counter)
    requires |ops| > 0 && ops[|ops| - 1] == Drain
    ensures Replay(s, ops).0 == Zero
    ensures Reported(Replay(s, ops).1, c) == s.Get(c) + Added(ops, c)
  {
    EndsWithDrainIsZero(s, ops);
    ReplayConserves(s, ops, c);
  }

  lemma {:induction false} EndsWithDrainIsZero(s: Snapshot, ops: seq<StatsOp>)
    requires |ops| > 0 && ops[|ops| - 1] == Drain
    ensures Replay(s, ops).0 == Zero
    decreases |ops|
  {
    if |ops| > 1 {
      match ops[0]
      case Bump(d, k) =>
        EndsWithDrainIsZero(s.Add(d, k), ops[1..]);
      case Drain =>
        EndsWithDrainIsZero(Zero, ops[1..]);
    }
  }

  /** Two reports with nothing in between: the second one is all zeros. */
  lemma SecondReportIsZero(s: Snapshot)
    ensures Replay(s, [Drain, Drain]).1 == [s, Zero]
  {
    assert [Drain, Drain][1..] == [Drain];
    assert [Drain][1..] == [];
  }
}
