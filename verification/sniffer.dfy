/**
 * The sniffer's merge loop. It owns a second window, keyed by its own hash
 * function, and merges four event sources: side-channel copies of what the
 * receivers accepted, frames captured on the validator's interface, the
 * 15-second rotation tick and the 60-second stats tick.
 *
 * Side-channel bytes are hashed whole and only recorded (under `Zdn`).
 * A captured frame has its link, IPv4 and UDP headers cut off, is parsed as
 * a shred, and is sent back to every relay address unless the hash of the
 * parsed payload is in `current`. The capture path never records a hash,
 * so the window only ever holds side-channel hashes.
 */
module Sniffer {
  import opened Wrappers
  import opened Args
  import opened Net
  import opened Dedup
  import opened Utils

  datatype Event =
    | SideChannel(bytes: seq<bv8>)
    | SideChannelClosed
    | Captured(frame: seq<bv8>)
    | CaptureClosed
    | RotateTick
    | StatsTick

  /**
   * What the task is started with: the header length to cut, the relay
   * addresses, its own keyed hash, and the shred parser
   * (`Shred::new_from_serialized_shred` followed by `payload()`).
   */
  datatype Config = Config(
    payloadOffset: nat,
    addrs: seq<SocketAddr>,
    hash: seq<bv8> -> Hash,
    parse: seq<bv8> -> Option<seq<bv8>>)

  /**
   * The task's state. `reports` holds the `total_send_back_count` value logged
   * at each stats tick; `stopped` is set when either channel closes and the
   * loop breaks.
   */
  datatype State = State(window: Generations, sendBackCount: nat, sent: seq<Send>, reports: seq<nat>, stopped: bool)

  function Initial(): (st: State)
    ensures st.window.Valid()
  {
    State(Empty, 0, [], [], false)
  }

  /** How a captured frame is handled. */
  datatype FrameVerdict = TooShortFrame | Unparsable | Duplicate | SendBack(udpPayload: seq<bv8>)

  function JudgeFrame(cfg: Config, window: Generations, frame: seq<bv8>): (v: FrameVerdict)
    ensures v.TooShortFrame? <==> |frame| <= cfg.payloadOffset
    ensures v.SendBack? ==> frame == frame[..cfg.payloadOffset] + v.udpPayload
    ensures v.SendBack? <==>
      |frame| > cfg.payloadOffset && cfg.parse(frame[cfg.payloadOffset..]).Some? &&
      !window.IsDuplicate(cfg.hash(cfg.parse(frame[cfg.payloadOffset..]).value))
  {
    if |frame| <= cfg.payloadOffset then TooShortFrame
    else
      var udpPayload := frame[cfg.payloadOffset..];
      match cfg.parse(udpPayload)
      case None => Unparsable
      case Some(payload) =>
        if window.IsDuplicate(cfg.hash(payload)) then Duplicate else SendBack(udpPayload)
  }

  function Step(cfg: Config, st: State, e: Event): (r: State)
    requires st.window.Valid()
    ensures r.window.Valid()
  {
    if st.stopped then st
    else match e
      case SideChannel(bytes) =>
        if bytes == [] then st else st.(window := st.window.Observe(cfg.hash(bytes), Zdn))
      case SideChannelClosed => st.(stopped := true)
      case CaptureClosed => st.(stopped := true)
      case Captured(frame) =>
        (match JudgeFrame(cfg, st.window, frame)
         case SendBack(udpPayload) =>
           st.(sendBackCount := st.sendBackCount + 1, sent := st.sent + Fanout(cfg.addrs, udpPayload))
         case _ => st)
      case RotateTick => st.(window := st.window.Rotate())
      case StatsTick => st.(reports := st.reports + [st.sendBackCount], sendBackCount := 0)
  }

  function Run(cfg: Config, st: State, events: seq<Event>): (r: State)
    requires st.window.Valid()
    ensures r.window.Valid()
    decreases |events|
  {
    if events == [] then st else Run(cfg, Step(cfg, st, events[0]), events[1..])
  }

  function Sum(xs: seq<nat>): nat
    decreases |xs|
  {
    if xs == [] then 0 else xs[0] + Sum(xs[1..])
  }

  lemma {:induction false} SumAppend(xs: seq<nat>, x: nat)
    ensures Sum(xs + [x]) == Sum(xs) + x
    decreases |xs|
  {
    if xs == [] {
      assert xs + [x] == [x];
    } else {
      assert (xs + [x])[1..] == xs[1..] + [x];
      SumAppend(xs[1..], x);
    }
  }

  /** An empty side-channel message changes nothing. */
  lemma EmptySideChannelIgnored(cfg: Config, st: State)
    requires st.window.Valid()
    ensures Step(cfg, st, SideChannel([])) == st
  {
  }

  /**
   * A non-empty side-channel message records the hash of all its bytes
   * under `Zdn`, and changes the window if and only if that hash was not
   * already in `current`. Nothing else changes.
   */
  lemma SideChannelRecordsIfAbsent(cfg: Config, st: State, bytes: seq<bv8>)
    requires st.window.Valid() && !st.stopped && bytes != []
    ensures var r := Step(cfg, st, SideChannel(bytes));
      && r.window.IsDuplicate(cfg.hash(bytes))
      && (r.window != st.window <==> !st.window.IsDuplicate(cfg.hash(bytes)))
      && (!st.window.IsDuplicate(cfg.hash(bytes)) ==>
            r.window.current[cfg.hash(bytes)] == Zdn && cfg.hash(bytes) in r.window.preparing)
      && r.sent == st.sent && r.sendBackCount == st.sendBackCount && r.reports == st.reports
  {
    var h := cfg.hash(bytes);
    var r := Step(cfg, st, SideChannel(bytes));
    if !st.window.IsDuplicate(h) {
      assert h in r.window.current && h !in st.window.current;
    }
  }

  /**
   * A captured frame is dropped, with no change at all, when it is not
   * longer than the header offset, when its post-header bytes do not parse,
   * or when its parsed payload's hash is in `current`.
   */
  lemma DroppedFrameChangesNothing(cfg: Config, st: State, frame: seq<bv8>)
    requires st.window.Valid()
    requires |frame| <= cfg.payloadOffset
      || cfg.parse(frame[cfg.payloadOffset..]).None?
      || st.window.IsDuplicate(cfg.hash(cfg.parse(frame[cfg.payloadOffset..]).value))
    ensures Step(cfg, st, Captured(frame)) == st
  {
  }

  /**
   * A frame that parses to a payload not in `current` is counted once and
   * its post-header bytes, not the parsed payload, go to every relay address.
   */
  lemma NovelFrameIsSentBack(cfg: Config, st: State, frame: seq<bv8>)
    requires st.window.Valid() && !st.stopped
    requires |frame| > cfg.payloadOffset
    requires cfg.parse(frame[cfg.payloadOffset..]).Some?
    requires !st.window.IsDuplicate(cfg.hash(cfg.parse(frame[cfg.payloadOffset..]).value))
    ensures var r := Step(cfg, st, Captured(frame));
      && r.sendBackCount == st.sendBackCount + 1
      && r.sent == st.sent + Fanout(cfg.addrs, frame[cfg.payloadOffset..])
      && r.window == st.window
  {
  }

  /** The capture path never writes to the window. */
  lemma CaptureLeavesWindow(cfg: Config, st: State, frame: seq<bv8>)
    requires st.window.Valid()
    ensures Step(cfg, st, Captured(frame)).window == st.window
  {
  }

  /** Because capture records nothing, the same novel frame captured twice is sent back twice. */
  lemma SameFrameSentBackTwice(cfg: Config, st: State, frame: seq<bv8>)
    requires st.window.Valid() && !st.stopped
    requires JudgeFrame(cfg, st.window, frame).SendBack?
    ensures var r := Step(cfg, Step(cfg, st, Captured(frame)), Captured(frame));
      && r.sendBackCount == st.sendBackCount + 2
      && r.sent == st.sent + Fanout(cfg.addrs, frame[cfg.payloadOffset..]) + Fanout(cfg.addrs, frame[cfg.payloadOffset..])
  {
  }

  /** A stats tick logs the running count and starts it again from zero. */
  lemma StatsTickResetsCount(cfg: Config, st: State)
    requires st.window.Valid() && !st.stopped
    ensures var r := Step(cfg, st, StatsTick);
      && r.sendBackCount == 0 && r.reports == st.reports + [st.sendBackCount]
      && r.window == st.window && r.sent == st.sent
  {
  }

  /** After a channel closes the loop has ended: no later event changes anything. */
  lemma {:induction false} StoppedIgnoresEverything(cfg: Config, st: State, events: seq<Event>)
    requires st.window.Valid() && st.stopped
    ensures Run(cfg, st, events) == st
    decreases |events|
  {
    if events != [] {
      StoppedIgnoresEverything(cfg, Step(cfg, st, events[0]), events[1..]);
    }
  }

  /** Every send-back counted so far: the logged totals and the pending count. */
  function Counted(st: State): nat
  {
    Sum(st.reports) + st.sendBackCount
  }

  /**
   * Send-back accounting over any run: every frame counted by
   * `total_send_back_count`, whether already reported or still pending,
   * produced exactly one send per relay address.
   */
  lemma {:induction false} SendBackAccounts(cfg: Config, st: State, events: seq<Event>)
    requires st.window.Valid()
    ensures var r := Run(cfg, st, events);
      && st.sent <= r.sent && st.reports <= r.reports
      && Counted(st) <= Counted(r)
      && |r.sent| - |st.sent| == |cfg.addrs| * (Counted(r) - Counted(st))
    decreases |events|
  {
    if events != [] {
      var st1 := Step(cfg, st, events[0]);
      var d := StepSendsBack(cfg, st, events[0]);
      SendBackAccounts(cfg, st1, events[1..]);
      var r := Run(cfg, st1, events[1..]);
      assert r == Run(cfg, st, events);
      PerUnitCompose(|cfg.addrs|, |st.sent|, |st1.sent|, |r.sent|, Counted(st), Counted(st1), Counted(r));
    }
  }

  /** One event sends back `d` frames, zero or one. */
  lemma StepSendsBack(cfg: Config, st: State, e: Event) returns (d: nat)
    requires st.window.Valid()
    ensures d <= 1
    ensures var r := Step(cfg, st, e);
      && st.sent <= r.sent && st.reports <= r.reports
      && Counted(r) == Counted(st) + d
      && |r.sent| == |st.sent| + |cfg.addrs| * (Counted(r) - Counted(st))
  {
    d := if !st.stopped && e.Captured? && JudgeFrame(cfg, st.window, e.frame).SendBack? then 1 else 0;
    if !st.stopped && e.StatsTick? {
      SumAppend(st.reports, st.sendBackCount);
    }
  }

  /** The sniffer's async task. */
  class Sniffer {
    const payloadOffset: nat
    const addrs: seq<SocketAddr>
    const hash: seq<bv8> -> Hash
    const parse: seq<bv8> -> Option<seq<bv8>>
    const window: Window
    var sendBackCount: nat
    var sent: seq<Send>
    var reports: seq<nat>
    var stopped: bool

    function Settings(): Config
      reads this
    {
      Config(payloadOffset, addrs, hash, parse)
    }

    function Model(): State
      reads this, window
    {
      State(window.Model(), sendBackCount, sent, reports, stopped)
    }

    ghost predicate Valid()
      reads this, window
    {
      window.Valid()
    }

    constructor (payloadOffset: nat, addrs: seq<SocketAddr>, hash: seq<bv8> -> Hash, parse: seq<bv8> -> Option<seq<bv8>>)
      ensures Valid() && fresh(window)
      ensures Settings() == Config(payloadOffset, addrs, hash, parse)
      ensures Model() == Initial()
    {
      this.payloadOffset, this.addrs, this.hash, this.parse := payloadOffset, addrs, hash, parse;
      window := new Window();
      sendBackCount, sent, reports, stopped := 0, [], [], false;
    }

    /** The spawned `join_all`: one send of `payload` per relay address, recorded in list order. */
    method SendBack(payload: seq<bv8>)
      modifies this
      ensures sent == old(sent) + Fanout(addrs, payload)
      ensures sendBackCount == old(sendBackCount) && reports == old(reports) && stopped == old(stopped)
    {
      var i := 0;
      while i < |addrs|
        invariant 0 <= i <= |addrs|
        invariant sent == old(sent) + Fanout(addrs[..i], payload)
        invariant sendBackCount == old(sendBackCount) && reports == old(reports) && stopped == old(stopped)
      {
        FanoutExtend(addrs, payload, i);
        sent := sent + [Send(addrs[i], payload)];
        i := i + 1;
      }
      assert addrs[..i] == addrs;
    }

    /** One turn of the `select!` loop; once stopped, the loop has exited. */
    method OnEvent(e: Event)
      requires Valid()
      modifies this, window
      ensures Valid()
      ensures Model() == Step(Settings(), old(Model()), e)
    {
      if stopped {
        return;
      }
      match e {
        case SideChannel(bytes) =>
          if |bytes| > 0 {
            var h := hash(bytes);
            var present := window.Contains(h);
            if !present {
              window.Insert(h, Zdn);
            }
          }
        case SideChannelClosed =>
          stopped := true;
        case CaptureClosed =>
          stopped := true;
        case Captured(frame) =>
          if |frame| <= payloadOffset {
            return;
          }
          var udpPayload := frame[payloadOffset..];
          var parsed := parse(udpPayload);
          if parsed.None? {
            return;
          }
          var present := window.Contains(hash(parsed.value));
          if present {
            return;
          }
          sendBackCount := sendBackCount + 1;
          SendBack(udpPayload);
        case RotateTick =>
          window.Rotate();
        case StatsTick =>
          reports := reports + [sendBackCount];
          sendBackCount := 0;
      }
    }

    /** The loop over a finite prefix of the merged event stream. */
    method RunEvents(events: seq<Event>)
      requires Valid()
      modifies this, window
      ensures Valid()
      ensures Model() == Run(Settings(), old(Model()), events)
    {
      var i := 0;
      while i < |events|
        invariant 0 <= i <= |events|
        invariant Valid()
        invariant Run(Settings(), old(Model()), events) == Run(Settings(), Model(), events[i..])
      {
        assert events[i..][1..] == events[i + 1..];
        OnEvent(events[i]);
        i := i + 1;
      }
    }
  }
}
