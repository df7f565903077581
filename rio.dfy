/** One end of a connected stream socket, with the robust read and write
    primitives the framing code relies on (`rio_readn`, `rio_writen`). */
module Rio {
  import opened Wire

  /** The first `room` octets of `s`: what a write gets through before the
      connection refuses further octets. */
  function Truncate(s: seq<byte>, room: nat): (t: seq<byte>)
    ensures |t| == if |s| <= room then |s| else room
    ensures t == s[..|t|]
  {
    if |s| <= room then s else s[..room]
  }

  /** Room left after writing `n` octets: exhausted once a write overruns it. */
  function RoomAfter(room: nat, n: nat): nat
  {
    if n <= room then room - n else 0
  }

  /** Writing `a` and then `b` gets through what writing `a + b` in one go would. */
  lemma TruncateAppend(a: seq<byte>, b: seq<byte>, room: nat)
    ensures Truncate(a, room) + Truncate(b, RoomAfter(room, |a|)) == Truncate(a + b, room)
  {
    if |a| <= room {
      assert (a + b)[..|a|] == a;
      if |a + b| > room {
        assert (a + b)[..room] == a + b[..room - |a|];
      }
    } else {
      assert (a + b)[..room] == a[..room];
    }
  }

  class Socket {
    /** Octets the peer has sent and this end has not read yet; the end of the
        sequence is the peer's end of stream. */
    var rx: seq<byte>
    /** Octets written to the peer so far. */
    var tx: seq<byte>
    /** How many more octets the connection accepts before a write fails
        (the peer resets the connection). */
    var room: nat
    var open: bool

    constructor (incoming: seq<byte>, capacity: nat)
      ensures rx == incoming && tx == [] && room == capacity && open
    {
      rx, tx, room, open := incoming, [], capacity, true;
    }

    /** rio_readn: read `n` octets, or fewer when the stream ends first;
        returns the count read, 0 at end of stream. */
    method ReadN(n: nat) returns (count: int, bytes: seq<byte>)
      modifies this`rx
      ensures count == if n <= |old(rx)| then n else |old(rx)|
      ensures count == |bytes| && bytes == old(rx)[..count]
      ensures rx == old(rx)[count..]
    {
      count := if n <= |rx| then n else |rx|;
      bytes := rx[..count];
      rx := rx[count..];
    }

    /** rio_writen: write all of `bytes`; returns their count, or -1 after
        a partial write when the connection refuses the rest. */
    method WriteN(bytes: seq<byte>) returns (ret: int)
      modifies this`tx, this`room
      ensures tx == old(tx) + Truncate(bytes, old(room))
      ensures room == RoomAfter(old(room), |bytes|)
      ensures ret == if |bytes| <= old(room) then |bytes| else -1
    {
      tx := tx + Truncate(bytes, room);
      ret := if |bytes| <= room then |bytes| else -1;
      room := RoomAfter(room, |bytes|);
    }

    method Close()
      modifies this`open
      ensures !open
    {
      open := false;
    }
  }
}
