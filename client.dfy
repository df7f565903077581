/** The client thread: `num_msg` operations alternating ADD `add` and SUB
    `sub` (ADD first), one TERMINATE, then one read of the server's reply,
    whose argument is printed. */
module Client {
  import opened Wire
  import opened Rio
  import opened Utils
  import opened Server

  /** The operations the loop sends: ADD add at even i, SUB sub at odd i. */
  function Operations(n: nat, add: Int32, sub: Int32): (ops: seq<Message>)
    ensures |ops| == n
    ensures forall i :: 0 <= i < n ==>
              ops[i] == if i % 2 == 0 then Message(OPERATION_ADD, add) else Message(OPERATION_SUB, sub)
  {
    if n == 0 then []
    else Operations(n - 1, add, sub) + [Step(n - 1, add, sub)]
  }

  /** The message of the loop's i-th turn (`(i & 0x1) == 0` selects ADD). */
  function Step(i: nat, add: Int32, sub: Int32): Message
  {
    if i % 2 == 0 then Message(OPERATION_ADD, add) else Message(OPERATION_SUB, sub)
  }

  /** Everything one client sends: the operations (none when num_msg is
      not positive), then TERMINATE with argument 0. */
  function ClientRequests(numMsg: int, add: Int32, sub: Int32): seq<Message>
  {
    Operations(if numMsg > 0 then numMsg else 0, add, sub) + [Message(OPERATION_TERMINATION, 0)]
  }

  function ClientBytes(numMsg: int, add: Int32, sub: Int32): seq<byte>
  {
    RequestBytes(ClientRequests(numMsg, add, sub))
  }

  /** The change a client's session makes to the counter: `add` once for
      each even index below num_msg, `sub` taken off once for each odd one. */
  function Expected(numMsg: int, add: Int32, sub: Int32): int
  {
    var n := if numMsg > 0 then numMsg else 0;
    ((n + 1) / 2) * add - (n / 2) * sub
  }

  /** The operations hold no TERMINATE and ask for Expected in total. */
  lemma {:induction false} OperationsNet(n: nat, add: Int32, sub: Int32)
    ensures !HasTermination(Operations(n, add, sub))
    ensures Net(Operations(n, add, sub)) == ((n + 1) / 2) * add - (n / 2) * sub
  {
    if n > 0 {
      var k := n - 1;
      var m := Step(k, add, sub);
      OperationsNet(k, add, sub);
      NetAppend(Operations(k, add, sub), [m]);
      assert Net([m]) == Effect(m.opType, m.argument) + Net([]);
      var j := k / 2;
      if k % 2 == 0 {
        assert k == 2 * j && (n + 1) / 2 == j + 1 && n / 2 == j;
        assert ((n + 1) / 2) * add == (k + 1) / 2 * add + add;
      } else {
        assert k == 2 * j + 1 && (n + 1) / 2 == j + 1 && n / 2 == j + 1;
        assert (n / 2) * sub == (k / 2) * sub + sub;
      }
    }
  }

  /** What the client's request stream asks of the server: exactly one
      TERMINATE, as the last message, after operations worth Expected. */
  lemma ClientRequestsNet(numMsg: int, add: Int32, sub: Int32)
    ensures HasTermination(ClientRequests(numMsg, add, sub))
    ensures AfterTermination(ClientRequests(numMsg, add, sub)) == []
    ensures Net(ClientRequests(numMsg, add, sub)) == Expected(numMsg, add, sub)
  {
    var n := if numMsg > 0 then numMsg else 0;
    var t := [Message(OPERATION_TERMINATION, 0)];
    OperationsNet(n, add, sub);
    NetAppend(Operations(n, add, sub), t);
  }

  /** One whole client session served from counter value `total`: the
      server replies with total + Expected (modulo 2^64, narrowed to 32
      bits) and reads nothing after the TERMINATE. */
  lemma ClientSession(total: int, numMsg: int, add: Int32, sub: Int32, rest: seq<byte>, exitOnFailure: bool)
    ensures Serve(total, ClientBytes(numMsg, add, sub) + rest, exitOnFailure) ==
            Replied(Wrap64(total + Expected(numMsg, add, sub)),
                    Wrap32(Wrap64(total + Expected(numMsg, add, sub))), rest)
  {
    ClientRequestsNet(numMsg, add, sub);
    ServeRequests(total, ClientRequests(numMsg, add, sub), rest, exitOnFailure);
    assert RequestBytes([]) + rest == rest;
  }

  /** The end-to-end promise: after one session the client reads back,
      from the reply frame the server sent, the starting counter plus
      Expected, wrapped to 64 bits and then narrowed to 32. */
  lemma ClientReadsReply(total: int, numMsg: int, add: Int32, sub: Int32, rest: seq<byte>, exitOnFailure: bool)
    ensures var r := Serve(total, ClientBytes(numMsg, add, sub) + rest, exitOnFailure);
            r.Replied? &&
            RecvSpec(FrameOf(Message(OPERATION_COUNTER, r.reply))) ==
              Received(OPERATION_COUNTER, Wrap32(Wrap64(total + Expected(numMsg, add, sub))), [])
  {
    ClientSession(total, numMsg, add, sub, rest, exitOnFailure);
    var reply := Wrap32(Wrap64(total + Expected(numMsg, add, sub)));
    RecvSendRoundTrip(Message(OPERATION_COUNTER, reply), []);
    assert FrameOf(Message(OPERATION_COUNTER, reply)) + [] == FrameOf(Message(OPERATION_COUNTER, reply));
  }

  /** Sessions run one after another on a fresh counter add up: the
      counter after k identical sessions is k * Expected, wrapped. */
  lemma {:induction false} RepeatedSessions(k: nat, numMsg: int, add: Int32, sub: Int32)
    ensures Wrap64(After(k, numMsg, add, sub)) == Wrap64(k * Expected(numMsg, add, sub))
  {
    if k > 0 {
      RepeatedSessions(k - 1, numMsg, add, sub);
      var e := Expected(numMsg, add, sub);
      ClientSession(After(k - 1, numMsg, add, sub), numMsg, add, sub, [], false);
      assert ClientBytes(numMsg, add, sub) + [] == ClientBytes(numMsg, add, sub);
      WrapAdd64(After(k - 1, numMsg, add, sub), e);
      WrapAdd64((k - 1) * e, e);
      assert (k - 1) * e + e == k * e;
    }
  }

  /** The counter left by k sessions served one after another from 0. */
  function After(k: nat, numMsg: int, add: Int32, sub: Int32): Int64
  {
    if k == 0 then 0
    else Serve(After(k - 1, numMsg, add, sub), ClientBytes(numMsg, add, sub), false).counter
  }

  /** Four messages of ADD 5 / SUB 2 on a fresh counter: 5 - 2 + 5 - 2. */
  lemma ExampleSession()
    ensures Serve(0, ClientBytes(4, 5, 2), false) == Replied(6, 6, [])
  {
    ClientSession(0, 4, 5, 2, [], false);
    assert ClientBytes(4, 5, 2) + [] == ClientBytes(4, 5, 2);
  }

  /** Sending one more message on a connection that has taken `sent`
      writes what sending `sent + [m]` in one go would, and leaves the same
      room. */
  lemma SendStep(before: seq<byte>, sent: seq<Message>, m: Message, room: nat)
    ensures before + Truncate(RequestBytes(sent), room) + Truncate(FrameOf(m), RoomAfter(room, |RequestBytes(sent)|)) ==
            before + Truncate(RequestBytes(sent + [m]), room)
    ensures RoomAfter(RoomAfter(room, |RequestBytes(sent)|), |FrameOf(m)|) ==
            RoomAfter(room, |RequestBytes(sent + [m])|)
  {
    var a, b := RequestBytes(sent), FrameOf(m);
    RequestBytesAppend(sent, [m]);
    assert RequestBytes([m]) == b + RequestBytes([]);
    assert RequestBytes(sent + [m]) == a + b;
    var ta, tb := Truncate(a, room), Truncate(b, RoomAfter(room, |a|));
    TruncateAppend(a, b, room);
    assert before + ta + tb == before + (ta + tb);
  }

  /** client()'s loop: message i is ADD(add) when i is even and SUB(sub)
      when it is odd, and what send_msg returns is not looked at. */
  method SendOperations(sock: Socket, numMsg: int, add: Int32, sub: Int32)
    modifies sock`tx, sock`room
    ensures var sent := Operations(if numMsg > 0 then numMsg else 0, add, sub);
            sock.tx == old(sock.tx) + Truncate(RequestBytes(sent), old(sock.room)) &&
            sock.room == RoomAfter(old(sock.room), |RequestBytes(sent)|)
  {
    var n: nat := if numMsg > 0 then numMsg else 0;
    ghost var sent: seq<Message> := [];
    var i := 0;
    while i < numMsg
      invariant 0 <= i <= n && sent == Operations(i, add, sub)
      invariant sock.tx == old(sock.tx) + Truncate(RequestBytes(sent), old(sock.room))
      invariant sock.room == RoomAfter(old(sock.room), |RequestBytes(sent)|)
    {
      ghost var m := Step(i, add, sub);
      SendStep(old(sock.tx), sent, m, old(sock.room));
      if i % 2 == 0 {
        assert m == Message(OPERATION_ADD, add);
        var _ := SendMsg(sock, OPERATION_ADD, add);
      } else {
        assert m == Message(OPERATION_SUB, sub);
        var _ := SendMsg(sock, OPERATION_SUB, sub);
      }
      sent := sent + [m];
      i := i + 1;
    }
  }

  /** client(): send the operations and the TERMINATE, ignoring what
      send_msg returns, then receive one message into zeroed variables
      and return the argument that ts_printf prints. */
  method RunClient(sock: Socket, numMsg: int, add: Int32, sub: Int32) returns (printed: Int64)
    requires !RecvSpec(sock.rx).RecvUndefined?
    modifies sock`tx, sock`room, sock`rx
    ensures sock.tx == old(sock.tx) + Truncate(ClientBytes(numMsg, add, sub), old(sock.room))
    ensures sock.room == RoomAfter(old(sock.room), |ClientBytes(numMsg, add, sub)|)
    ensures sock.rx == RecvSpec(old(sock.rx)).rest
    ensures printed == if RecvSpec(old(sock.rx)).Received? then RecvSpec(old(sock.rx)).argument else 0
  {
    SendOperations(sock, numMsg, add, sub);
    ghost var sent := Operations(if numMsg > 0 then numMsg else 0, add, sub);
    SendStep(old(sock.tx), sent, Message(OPERATION_TERMINATION, 0), old(sock.room));
    var _ := SendMsg(sock, OPERATION_TERMINATION, 0);
    assert sent + [Message(OPERATION_TERMINATION, 0)] == ClientRequests(numMsg, add, sub);
    var ret, operationType, argument := RecvMsg(sock, 0, 0);
    printed := argument;
  }
}
