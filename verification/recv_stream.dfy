/** The peer side of a TCP socket, as `socket.recv(n)` sees it: the bytes the
    peer will ever send, and a schedule saying how many of them each call can
    deliver at most (how the transport happens to fragment them). */
module RecvStream {
  import opened Common
  import opened LittleEndian

  /** A per-call delivery bound; a blocking recv always delivers at least one byte
      unless the peer has closed the connection. */
  type Cap = c: nat | c > 0 witness 1

  /** `data`: the bytes not yet received; `caps`: the bound for each coming recv
      call, one entry consumed per call. Once the schedule is used up the transport
      delivers whatever is asked for. */
  datatype Socket = Socket(data: seq<byte>, caps: seq<Cap>)

  /** `recv(n)`: the next min(n, cap, remaining) bytes, and the socket after the call. */
  function Recv(s: Socket, n: nat): (r: (seq<byte>, Socket))
    ensures r.0 + r.1.data == s.data
    ensures |r.0| <= n
    ensures s.caps != [] ==> |r.0| <= s.caps[0] && r.1.caps == s.caps[1..]
    ensures s.caps == [] ==> r.1.caps == []
    ensures n > 0 ==> (r.0 == [] <==> s.data == [])
  {
    var cap := if s.caps == [] then n else s.caps[0];
    var k := Min(Min(n, cap), |s.data|);
    (s.data[..k], Socket(s.data[k..], if s.caps == [] then [] else s.caps[1..]))
  }

  /** The schedule left after `calls` recv calls: one entry consumed per call. */
  function Spent(caps: seq<Cap>, calls: nat): (r: seq<Cap>)
    ensures |r| == |caps| - Min(calls, |caps|)
  {
    caps[Min(calls, |caps|)..]
  }

  /** A recv call on a socket whose schedule is what `k` calls left of `caps0`
      leaves what `k + 1` calls leave. */
  lemma RecvSpends(s: Socket, n: nat, caps0: seq<Cap>, k: nat)
    requires s.caps == Spent(caps0, k)
    ensures Recv(s, n).1.caps == Spent(caps0, k + 1)
  {
    if k < |caps0| {
      assert caps0[k..][1..] == caps0[k + 1..];
    }
  }
}
