/**
 * The processor: the single task that drains the receivers' queue, drops
 * every hash its own window has seen, records first-seen hashes, and forwards
 * only primary-relay (`Zdn`) packets to the validator addresses. A rotation
 * tick ages the window. Every queued item, duplicate or not, adds its
 * processing time to the `nanos` counter.
 */
module Processor {
  import opened Args
  import opened Net
  import opened Dedup
  import opened Stats
  import opened Utils

  /** What the task's `select!` delivers: a queued item, or the 15-second rotation tick. */
  datatype Event =
    | Item(source: Source, bytes: seq<bv8>, hash: Hash, elapsed: nat)  // elapsed: the measured nanoseconds
    | RotateTick

  /** Everything the processor changes: its window, the shared counters, `counter`, and its sends. */
  datatype State = State(window: Generations, stats: Snapshot, counter: nat, sent: seq<Send>)

  /** The effect of one event, for validator addresses `forwards`. */
  function Step(forwards: seq<SocketAddr>, st: State, e: Event): (r: State)
    requires st.window.Valid()
    ensures r.window.Valid()
  {
    match e
    case RotateTick => st.(window := st.window.Rotate())
    case Item(s, bytes, h, elapsed) =>
      if st.window.IsDuplicate(h) then st.(stats := st.stats.Add(Nanos, elapsed))
      else
        var recorded := st.(window := st.window.Observe(h, s), stats := st.stats.Add(Firsts(s), 1));
        var forwarded :=
          if s == Zdn then
            recorded.(sent := recorded.sent + Fanout(forwards, bytes),
                      stats := recorded.stats.Add(Forwarded, 1),
                      counter := recorded.counter + 1)
          else recorded;
        forwarded.(stats := forwarded.stats.Add(Nanos, elapsed))
  }

  function Run(forwards: seq<SocketAddr>, st: State, events: seq<Event>): (r: State)
    requires st.window.Valid()
    ensures r.window.Valid()
    decreases |events|
  {
    if events == [] then st else Run(forwards, Step(forwards, st, events[0]), events[1..])
  }

  /** The window operation an event performs. */
  function WindowOpOf(e: Event): WindowOp
  {
    match e
    case Item(s, _, h, _) => Obs(h, s)
    case RotateTick => Rot
  }

  function WindowOps(events: seq<Event>): (ops: seq<WindowOp>)
    ensures |ops| == |events|
    decreases |events|
  {
    if events == [] then [] else [WindowOpOf(events[0])] + WindowOps(events[1..])
  }

  function RotateTicks(events: seq<Event>): nat
    decreases |events|
  {
    if events == [] then 0 else (if events[0].RotateTick? then 1 else 0) + RotateTicks(events[1..])
  }

  /** A duplicate item changes nothing but the processing-time counter. */
  lemma DuplicateIsDropped(forwards: seq<SocketAddr>, st: State, s: Source, bytes: seq<bv8>, h: Hash, elapsed: nat)
    requires st.window.Valid() && st.window.IsDuplicate(h)
    ensures var r := Step(forwards, st, Item(s, bytes, h, elapsed));
      && r.window == st.window && r.counter == st.counter && r.sent == st.sent
      && r.stats.Get(Nanos) == st.stats.Get(Nanos) + elapsed
      && forall c :: c != Nanos ==> r.stats.Get(c) == st.stats.Get(c)
  {
  }

  /**
   * A new hash is recorded in both generations under its source and counted
   * as first-seen; it is forwarded, once to every validator address in list
   * order with its bytes unchanged, exactly when its source is `Zdn`.
   */
  lemma NewItemIsRecorded(forwards: seq<SocketAddr>, st: State, s: Source, bytes: seq<bv8>, h: Hash, elapsed: nat)
    requires st.window.Valid() && !st.window.IsDuplicate(h)
    ensures var r := Step(forwards, st, Item(s, bytes, h, elapsed));
      && r.window.current == st.window.current[h := s]
      && r.window.preparing == st.window.preparing[h := s]
      && r.stats.Get(Firsts(s)) == st.stats.Get(Firsts(s)) + 1
      && r.sent == st.sent + (if s == Zdn then Fanout(forwards, bytes) else [])
      && r.stats.Get(Forwarded) == st.stats.Get(Forwarded) + (if s == Zdn then 1 else 0)
      && r.counter == st.counter + (if s == Zdn then 1 else 0)
  {
  }

  /** The window evolves by exactly the observations and rotations the events carry. */
  lemma {:induction false} RunWindow(forwards: seq<SocketAddr>, st: State, events: seq<Event>)
    requires st.window.Valid()
    ensures Run(forwards, st, events).window == ApplyAll(st.window, WindowOps(events))
    ensures Rotations(WindowOps(events)) == RotateTicks(events)
    decreases |events|
  {
    if events != [] {
      RunWindow(forwards, Step(forwards, st, events[0]), events[1..]);
      assert WindowOps(events)[1..] == WindowOps(events[1..]);
    }
  }

  /**
   * `counter` and the `forwarded` counter move together: both by one per
   * forwarded packet, failed sends included.
   */
  lemma {:induction false} ForwardedMatchesCounter(forwards: seq<SocketAddr>, st: State, events: seq<Event>)
    requires st.window.Valid()
    ensures var r := Run(forwards, st, events);
      && r.counter >= st.counter
      && r.stats.Get(Forwarded) - st.stats.Get(Forwarded) == r.counter - st.counter
    decreases |events|
  {
    if events != [] {
      var st1 := Step(forwards, st, events[0]);
      var d := StepAccounts(forwards, st, events[0]);
      ForwardedMatchesCounter(forwards, st1, events[1..]);
      assert Run(forwards, st1, events[1..]) == Run(forwards, st, events);
    }
  }

  /**
   * From state `a` to state `b` the sends only grew, and by `n` packets
   * for each increment of `counter`.
   */
  predicate Accounted(n: nat, a: State, b: State)
  {
    && a.counter <= b.counter
    && |b.sent| == |a.sent| + n * (b.counter - a.counter)
    && a.sent <= b.sent
  }

  /** Accounting over two stretches of a run adds up. */
  lemma AccountedChains(n: nat, a: State, b: State, c: State)
    requires Accounted(n, a, b) && Accounted(n, b, c)
    ensures Accounted(n, a, c)
  {
    PerUnitCompose(n, |a.sent|, |b.sent|, |c.sent|, a.counter, b.counter, c.counter);
  }

  /** Every forwarded packet produces one send per validator address. */
  lemma {:induction false} ForwardingAccounts(forwards: seq<SocketAddr>, st: State, events: seq<Event>)
    requires st.window.Valid()
    ensures Accounted(|forwards|, st, Run(forwards, st, events))
    decreases |events|
  {
    if events != [] {
      var st1 := Step(forwards, st, events[0]);
      var d := StepAccounts(forwards, st, events[0]);
      ForwardingAccounts(forwards, st1, events[1..]);
      var r := Run(forwards, st1, events[1..]);
      assert r == Run(forwards, st, events);
      AccountedChains(|forwards|, st, st1, r);
    }
  }

  /** One event forwards `d` packets, zero or one, and accounts for them. */
  lemma StepAccounts(forwards: seq<SocketAddr>, st: State, e: Event) returns (d: nat)
    requires st.window.Valid()
    ensures d <= 1
    ensures var r := Step(forwards, st, e);
      && r.counter == st.counter + d
      && r.stats.Get(Forwarded) == st.stats.Get(Forwarded) + d
      && Accounted(|forwards|, st, r)
  {
    d := if e.Item? && !st.window.IsDuplicate(e.hash) && e.source == Zdn then 1 else 0;
  }

  /**
   * A hash processed as new stays a duplicate through any later items and at
   * most one rotation tick: a later item with the same hash, from either
   * source, is neither counted as first-seen nor forwarded.
   */
  lemma LaterCopyIsDropped(forwards: seq<SocketAddr>, st: State, first: Event, middle: seq<Event>, later: Event)
    requires st.window.Valid()
    requires first.Item? && !st.window.IsDuplicate(first.hash)
    requires RotateTicks(middle) <= 1
    requires later.Item? && later.hash == first.hash
    ensures var before := Run(forwards, st, [first] + middle);
      var after := Step(forwards, before, later);
      && after.sent == before.sent && after.counter == before.counter
      && after.window == before.window
      && after.stats.Get(Firsts(later.source)) == before.stats.Get(Firsts(later.source))
  {
    var st1 := Step(forwards, st, first);
    assert h1: st1.window.IsDuplicate(first.hash) && first.hash in st1.window.preparing;
    RunWindow(forwards, st1, middle);
    FreshSurvivesOneRotation(st1.window, WindowOps(middle), first.hash);
    assert ([first] + middle)[1..] == middle;
    assert Run(forwards, st, [first] + middle) == Run(forwards, st1, middle);
  }

  /**
   * A reference copy seen first suppresses the primary copy of the same
   * shred that arrives within the window: that copy is never forwarded.
   */
  lemma ReferenceFirstSuppressesZdn(forwards: seq<SocketAddr>, st: State, h: Hash, refBytes: seq<bv8>, zdnBytes: seq<bv8>, t1: nat, t2: nat, middle: seq<Event>)
    requires st.window.Valid() && !st.window.IsDuplicate(h)
    requires RotateTicks(middle) <= 1
    ensures var before := Run(forwards, st, [Item(Reference, refBytes, h, t1)] + middle);
      Step(forwards, before, Item(Zdn, zdnBytes, h, t2)).sent == before.sent
  {
    LaterCopyIsDropped(forwards, st, Item(Reference, refBytes, h, t1), middle, Item(Zdn, zdnBytes, h, t2));
  }

  /** The same item twice within one generation: one first-seen count and at most one forward. */
  lemma SameItemTwice(forwards: seq<SocketAddr>, st: State, s: Source, bytes: seq<bv8>, h: Hash, t1: nat, t2: nat)
    requires st.window.Valid() && !st.window.IsDuplicate(h)
    ensures var r := Run(forwards, st, [Item(s, bytes, h, t1), Item(s, bytes, h, t2)]);
      && r.stats.Get(Firsts(s)) == st.stats.Get(Firsts(s)) + 1
      && |r.sent| == |st.sent| + (if s == Zdn then |forwards| else 0)
  {
    var st1 := Step(forwards, st, Item(s, bytes, h, t1));
    var st2 := Step(forwards, st1, Item(s, bytes, h, t2));
    var events := [Item(s, bytes, h, t1), Item(s, bytes, h, t2)];
    assert events[1..] == [Item(s, bytes, h, t2)];
    assert events[1..][1..] == [];
    assert Run(forwards, st2, []) == st2;
    assert Run(forwards, st1, events[1..]) == st2;
    assert Run(forwards, st, events) == st2;
  }

  /** The processor task: its own window, the shared counters, the shared `counter`, its send record. */
  class Processor {
    const forwards: seq<SocketAddr>
    const window: Window
    const stats: Stats
    var counter: nat
    var sent: seq<Send>

    function Model(): State
      reads this, window, stats
    {
      State(window.Model(), stats.Values(), counter, sent)
    }

    ghost predicate Valid()
      reads this, window
    {
      window.Valid()
    }

    constructor (forwards: seq<SocketAddr>, stats: Stats)
      ensures Valid() && fresh(window)
      ensures this.forwards == forwards && this.stats == stats
      ensures window.Model() == Empty && counter == 0 && sent == []
    {
      this.forwards := forwards;
      this.stats := stats;
      window := new Window();
      counter := 0;
      sent := [];
    }

    /** The `for addr in &addrs` loop: one send per address, in order; failures are logged only. */
    method ForwardToAll(bytes: seq<bv8>)
      modifies this
      ensures sent == old(sent) + Fanout(forwards, bytes)
      ensures counter == old(counter)
    {
      var i := 0;
      while i < |forwards|
        invariant 0 <= i <= |forwards|
        invariant sent == old(sent) + Fanout(forwards[..i], bytes)
        invariant counter == old(counter)
      {
        FanoutExtend(forwards, bytes, i);
        sent := sent + [Send(forwards[i], bytes)];
        i := i + 1;
      }
      assert forwards[..i] == forwards;
    }

    /** One turn of the task's loop. */
    method OnEvent(e: Event)
      requires Valid()
      modifies this, window, stats
      ensures Valid()
      ensures Model() == Step(forwards, old(Model()), e)
    {
      match e {
        case RotateTick =>
          window.Rotate();
        case Item(s, bytes, h, elapsed) =>
          var duplicate := window.Contains(h);
          if !duplicate {
            window.Insert(h, s);
            stats.FetchAdd(Firsts(s), 1);
            if s == Zdn {
              ForwardToAll(bytes);
              stats.FetchAdd(Forwarded, 1);
              counter := counter + 1;
            }
          }
          stats.FetchAdd(Nanos, elapsed);
      }
    }

    /** The task's loop over a finite prefix of its event stream. */
    method RunEvents(events: seq<Event>)
      requires Valid()
      modifies this, window, stats
      ensures Valid()
      ensures Model() == Run(forwards, old(Model()), events)
    {
      var i := 0;
      while i < |events|
        invariant 0 <= i <= |events|
        invariant Valid()
        invariant Run(forwards, old(Model()), events) == Run(forwards, Model(), events[i..])
      {
        assert events[i..][1..] == events[i + 1..];
        OnEvent(events[i]);
        i := i + 1;
      }
    }
  }
}
