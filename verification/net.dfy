/**
 * Outbound UDP sends, recorded rather than performed. A send that fails is
 * logged and ignored by its caller, so the record is of every attempted send.
 */
module Net {
  import opened Args

  /** One `send_to(bytes, to)` call. */
  datatype Send = Send(to: SocketAddr, bytes: seq<bv8>)

  /** One send of `bytes` to every address of `addrs`, in list order. */
  function Fanout(addrs: seq<SocketAddr>, bytes: seq<bv8>): (r: seq<Send>)
    ensures |r| == |addrs|
    ensures forall i :: 0 <= i < |r| ==> r[i].to == addrs[i] && r[i].bytes == bytes
  {
    seq(|addrs|, i requires 0 <= i < |addrs| => Send(addrs[i], bytes))
  }

  /** Fanning out over a prefix and then one more address is fanning out over the longer prefix. */
  lemma FanoutExtend(addrs: seq<SocketAddr>, bytes: seq<bv8>, i: nat)
    requires i < |addrs|
    ensures Fanout(addrs[..i + 1], bytes) == Fanout(addrs[..i], bytes) + [Send(addrs[i], bytes)]
  {
  }
}
