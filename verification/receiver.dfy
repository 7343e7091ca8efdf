/**
 * The relay receivers. Each one listens on one UDP port for one `Source`.
 * For every datagram it counts a packet, reads the variant tag that follows
 * the signature, looks up the canonical length of that wire-format variant,
 * hashes only that canonical prefix and hands the whole datagram on: to the
 * processor as `(source, bytes, hash)` and to the sniffer's side channel.
 */
module Receiver {
  import opened Wrappers
  import opened Args
  import opened Dedup
  import opened Stats

  /** `SIGNATURE_BYTES`: the ed25519 signature in front of the variant tag. */
  const SIGNATURE_BYTES: nat := 64

  /** `u8::from(ShredType::Code)` and `u8::from(ShredType::Data)`: legacy tag bytes. */
  const CODE_TAG: bv8 := 0x5A
  const DATA_TAG: bv8 := 0xA5

  /** The receive buffer: `recv_from` keeps at most this many bytes of a datagram. */
  const RECV_BUFFER: nat := 2048

  /** Canonical lengths: the two base variants and their 64-byte-shorter resigned forms. */
  const BASE_LONG: nat := 1228
  const BASE_SHORT: nat := 1203
  const RESIGNED_GAP: nat := 64

  /** The canonical length selected by the top four bits of the tag, if the variant is known. */
  function CanonicalLength(tag: bv8): (n: Option<nat>)
    ensures n.Some? ==> n.value in {1139, 1164, 1203, 1228}
    ensures n.Some? ==> n.value > SIGNATURE_BYTES
  {
    var nibble := tag & 0xF0;
    if nibble == 0x40 || nibble == 0x60 then Some(BASE_LONG)
    else if nibble == 0x70 then Some(BASE_LONG - RESIGNED_GAP)
    else if nibble == 0x80 || nibble == 0x90 then Some(BASE_SHORT)
    else if nibble == 0xB0 then Some(BASE_SHORT - RESIGNED_GAP)
    else None
  }

  /** What the receiver decides about one non-empty datagram. */
  datatype Verdict =
    | NoTag                     // no byte at SIGNATURE_BYTES: counted as a packet, nothing else
    | Reserved                  // a legacy ShredType tag byte: invalid
    | UnknownVariant            // a top nibble outside the table: invalid
    | TooShort(canonical: nat)  // shorter than its canonical length: invalid
    | Canonical(length: nat)    // hash data[..length], emit the whole datagram

  predicate IsInvalid(v: Verdict)
  {
    v.Reserved? || v.UnknownVariant? || v.TooShort?
  }

  function Classify(data: seq<bv8>): (v: Verdict)
    ensures v.NoTag? <==> |data| <= SIGNATURE_BYTES
    ensures v.Reserved? <==> |data| > SIGNATURE_BYTES && data[SIGNATURE_BYTES] in {CODE_TAG, DATA_TAG}
    ensures v.TooShort? ==> |data| < v.canonical && CanonicalLength(data[SIGNATURE_BYTES]) == Some(v.canonical)
    ensures v.Canonical? ==> SIGNATURE_BYTES < v.length <= |data| && CanonicalLength(data[SIGNATURE_BYTES]) == Some(v.length)
    ensures v.UnknownVariant? ==> CanonicalLength(data[SIGNATURE_BYTES]).None?
  {
    if |data| <= SIGNATURE_BYTES then NoTag
    else
      var tag := data[SIGNATURE_BYTES];
      if tag == CODE_TAG || tag == DATA_TAG then Reserved
      else match CanonicalLength(tag)
        case None => UnknownVariant
        case Some(n) => if |data| < n then TooShort(n) else Canonical(n)
  }

  /** The known variants and their canonical lengths, nibble by nibble. */
  lemma CanonicalLengthTable(tag: bv8)
    ensures CanonicalLength(tag).Some? <==> tag & 0xF0 in {0x40, 0x60, 0x70, 0x80, 0x90, 0xB0}
    ensures tag & 0xF0 in {0x40, 0x60} ==> CanonicalLength(tag) == Some(1228)
    ensures tag & 0xF0 == 0x70 ==> CanonicalLength(tag) == Some(1164)
    ensures tag & 0xF0 in {0x80, 0x90} ==> CanonicalLength(tag) == Some(1203)
    ensures tag & 0xF0 == 0xB0 ==> CanonicalLength(tag) == Some(1139)
  {
  }

  /** Only the top nibble matters: the low four bits of the tag never change the length. */
  lemma CanonicalLengthIgnoresLowNibble(tag: bv8)
    ensures CanonicalLength(tag) == CanonicalLength(tag & 0xF0)
  {
    assert (tag & 0xF0) & 0xF0 == tag & 0xF0;
  }

  /** The two legacy tag bytes name no known variant, so the explicit check never changes an outcome from emit to invalid. */
  lemma ReservedTagsAreUnknownVariants()
    ensures CanonicalLength(CODE_TAG).None? && CanonicalLength(DATA_TAG).None?
  {
  }

  /** Every valid datagram is at least as long as the shortest variant. */
  lemma {:induction false} CanonicalIsBounded(data: seq<bv8>)
    ensures Classify(data).Canonical? ==>
      SIGNATURE_BYTES < Classify(data).length <= |data| && Classify(data).length in {1139, 1164, 1203, 1228}
    ensures |data| < 1139 ==> !Classify(data).Canonical?
  {
  }

  /**
   * The verdict and the hash depend on the canonical prefix only: two
   * datagrams that agree on it are emitted with the same hash, whatever
   * follows, so they deduplicate against each other downstream.
   */
  lemma {:induction false} VerdictDependsOnCanonicalPrefix(hash: seq<bv8> -> Hash, a: seq<bv8>, b: seq<bv8>)
    requires Classify(a).Canonical?
    requires |b| >= Classify(a).length && b[..Classify(a).length] == a[..Classify(a).length]
    ensures Classify(b) == Classify(a)
    ensures hash(b[..Classify(b).length]) == hash(a[..Classify(a).length])
  {
    var n := Classify(a).length;
    assert b[SIGNATURE_BYTES] == b[..n][SIGNATURE_BYTES] == a[..n][SIGNATURE_BYTES] == a[SIGNATURE_BYTES];
  }

  /**
   * A datagram of 64 signature bytes, tag 0x41 and 2000 more bytes reaches
   * the classifier as its first 2048 bytes, which are valid with canonical
   * length 1228.
   */
  lemma LongVariantExample(datagram: seq<bv8>)
    requires |datagram| == 2065 && datagram[64] == 0x41
    ensures |Truncated(datagram)| == RECV_BUFFER
    ensures Classify(Truncated(datagram)) == Canonical(1228)
  {
    assert Truncated(datagram)[64] == datagram[64];
  }

  /** What a `recv_from` into the 2048-byte buffer returned. */
  datatype RecvResult = Received(datagram: seq<bv8>) | WouldBlock | RecvFailed

  /** The bytes a datagram leaves in the receive buffer. */
  function Truncated(datagram: seq<bv8>): (data: seq<bv8>)
    ensures |data| <= RECV_BUFFER
    ensures data <= datagram
    ensures |datagram| <= RECV_BUFFER ==> data == datagram
    ensures |datagram| > RECV_BUFFER ==> |data| == RECV_BUFFER
  {
    if |datagram| <= RECV_BUFFER then datagram else datagram[..RECV_BUFFER]
  }

  /** The process exit code for an unrecoverable receive error. */
  const RECV_EXIT_CODE: int := 1

  /**
   * How one pass of the receive loop ends: on to the next datagram, with the
   * process exit code, or in the panic of `send(..).unwrap()` on a channel
   * whose receiving end has been dropped.
   */
  datatype PassEnd = Continue | Exit(code: int) | Panicked

  /** An item on the processor's queue. */
  datatype Emitted = Emitted(source: Source, bytes: seq<bv8>, hash: Hash)

  /**
   * One receiver task. `toProcessor` and `toSniffer` are what it has pushed
   * onto the two unbounded channels, in order.
   */
  class Receiver {
    const source: Source
    const hash: seq<bv8> -> Hash
    const stats: Stats
    var toProcessor: seq<Emitted>
    var toSniffer: seq<seq<bv8>>

    constructor (source: Source, hash: seq<bv8> -> Hash, stats: Stats)
      ensures this.source == source && this.hash == hash && this.stats == stats
      ensures toProcessor == [] && toSniffer == []
    {
      this.source, this.hash, this.stats := source, hash, stats;
      toProcessor, toSniffer := [], [];
    }

    /**
     * One pass of the receive loop. A recv error ends the process; a
     * would-block result or an empty datagram changes nothing; every other
     * datagram counts once as a packet and then ends in exactly one of: no
     * tag (nothing more), invalid (counted), or sent on both channels with
     * the unmodified bytes and the hash of the canonical prefix.
     * `processorOpen` and `snifferOpen` say whether the receiving ends of the
     * two channels still exist: a send on a closed channel delivers nothing
     * and its `unwrap` panics, so the side-channel send is not reached when
     * the processor's channel is closed.
     */
    method OnRecv(r: RecvResult, processorOpen: bool, snifferOpen: bool) returns (end: PassEnd)
      modifies this, stats
      ensures end.Exit? <==> r.RecvFailed?
      ensures end.Exit? ==> end.code == RECV_EXIT_CODE
      ensures end.Panicked? <==>
        r.Received? && Truncated(r.datagram) != [] && Classify(Truncated(r.datagram)).Canonical? &&
        !(processorOpen && snifferOpen)
      ensures !r.Received? || Truncated(r.datagram) == [] ==>
        stats.Values() == old(stats.Values()) && toProcessor == old(toProcessor) && toSniffer == old(toSniffer)
      ensures r.Received? && Truncated(r.datagram) != [] ==>
        var data := Truncated(r.datagram);
        var counted := old(stats.Values()).Add(Packets(source), 1);
        match Classify(data)
        case Canonical(n) =>
          && stats.Values() == counted
          && toProcessor == old(toProcessor) + (if processorOpen then [Emitted(source, data, hash(data[..n]))] else [])
          && toSniffer == old(toSniffer) + (if processorOpen && snifferOpen then [data] else [])
        case NoTag =>
          stats.Values() == counted && toProcessor == old(toProcessor) && toSniffer == old(toSniffer)
        case _ =>
          && stats.Values() == counted.Add(Invalids(source), 1)
          && toProcessor == old(toProcessor) && toSniffer == old(toSniffer)
    {
      match r {
        case RecvFailed =>
          return Exit(RECV_EXIT_CODE);
        case WouldBlock =>
          return Continue;
        case Received(datagram) =>
          var data := Truncated(datagram);
          if |data| == 0 {
            return Continue;
          }
          stats.FetchAdd(Packets(source), 1);
          if |data| <= SIGNATURE_BYTES {
            return Continue;
          }
          var tag := data[SIGNATURE_BYTES];
          if tag == CODE_TAG || tag == DATA_TAG {
            stats.FetchAdd(Invalids(source), 1);
            return Continue;
          }
          var canonical := CanonicalLength(tag);
          if canonical.None? || |data| < canonical.value {
            stats.FetchAdd(Invalids(source), 1);
            return Continue;
          }
          var h := hash(data[..canonical.value]);
          if !processorOpen {
            return Panicked;
          }
          toProcessor := toProcessor + [Emitted(source, data, h)];
          if !snifferOpen {
            return Panicked;
          }
          toSniffer := toSniffer + [data];
          return Continue;
      }
    }
  }

  /**
   * `start_receivers`: one receiver for the relay port and, when a reference
   * port is configured, one for it. Both hash with clones of the same
   * `RandomState`, so they compute the same hash for the same canonical
   * prefix and the processor deduplicates across sources.
   */
  method StartReceivers(hash: seq<bv8> -> Hash, stats: Stats, hasReference: bool) returns (receivers: seq<Receiver>)
    ensures |receivers| == if hasReference then 2 else 1
    ensures receivers[0].source == Zdn
    ensures hasReference ==> receivers[1].source == Reference
    ensures forall i :: 0 <= i < |receivers| ==>
      && fresh(receivers[i]) && receivers[i].hash == hash && receivers[i].stats == stats
      && receivers[i].toProcessor == [] && receivers[i].toSniffer == []
  {
    var zdn := new Receiver(Zdn, hash, stats);
    receivers := [zdn];
    if hasReference {
      var reference := new Receiver(Reference, hash, stats);
      receivers := receivers + [reference];
    }
  }
}
