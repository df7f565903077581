/** The server's sequential logic: the shared counter and the dispatch loop
    that conn_server and listen_server run on one connection, the
    round-robin hand-off of accepted connections to epoll sets, and the
    table of epoll sets that main builds. One interleaving of the threads is
    modelled: the counter is a field updated one operation at a time. */
module Server {
  import opened Wire
  import opened Rio
  import opened Utils

  const TWO_31: int := 0x8000_0000

  /** The change one operation asks of the counter: +argument for ADD,
      -argument for SUB, none for any other type. */
  function Effect(operationType: Int32, argument: Int64): int
  {
    var a: int := argument;
    if operationType == OPERATION_ADD then a
    else if operationType == OPERATION_SUB then -a
    else 0
  }

  /** How the dispatch loop leaves one connection; `counter` is the value
      the shared counter holds at that point. */
  datatype ServeResult =
    | Replied(counter: Int64, reply: Int32, rest: seq<byte>)  // TERMINATE: reply sent, fd closed; `rest` is never read
    | Spinning(counter: Int64)   // stream exhausted: every later recv_msg fails and the loop spins without effect
    | Exited(counter: Int64)     // listener thread: err_report ends the process after a failed recv_msg
    | Undefined(counter: Int64)  // a recv_msg whose behaviour is undefined (see Utils.RecvSpec)

  /** The dispatch loop run on the octets `data` a client sends. `total` is
      the exact sum of every change applied to the counter so far; the
      64-bit counter itself holds Wrap64(total), as each fetch_add wraps
      (Wire.WrapAdd64). `exitOnFailure` selects the listener thread's
      variant, which calls err_report on a failed receive. Once the stream
      is exhausted every recv_msg fails: the worker's loop spins without
      effect, the listener's exits. */
  function Serve(total: int, data: seq<byte>, exitOnFailure: bool): ServeResult
    decreases |data|, 1
  {
    if data == [] then
      if exitOnFailure then Exited(Wrap64(total)) else Spinning(Wrap64(total))
    else Turn(total, data, exitOnFailure)
  }

  /** One turn of the loop on a stream that still has octets, then the
      rest of the loop. */
  function Turn(total: int, data: seq<byte>, exitOnFailure: bool): ServeResult
    requires data != []
    decreases |data|, 0
  {
    match RecvSpec(data)
    case RecvUndefined => Undefined(Wrap64(total))
    case RecvFailed(rest) =>
      if exitOnFailure then Exited(Wrap64(total)) else Serve(total, rest, exitOnFailure)
    case Received(operationType, argument, rest) =>
      if operationType == OPERATION_TERMINATION then Replied(Wrap64(total), Wrap32(Wrap64(total)), rest)
      else Serve(total + Effect(operationType, argument), rest, exitOnFailure)
  }

  /** The counter a connection leaves behind depends on the changes made so
      far only through their wrapped sum. */
  lemma {:induction false} ServeWrapped(total: int, data: seq<byte>, exitOnFailure: bool)
    ensures Serve(Wrap64(total), data, exitOnFailure) == Serve(total, data, exitOnFailure)
    decreases |data|
  {
    if data != [] {
      match RecvSpec(data)
      case RecvUndefined =>
      case RecvFailed(rest) =>
        ServeFailed(total, data, exitOnFailure, rest);
        ServeFailed(Wrap64(total), data, exitOnFailure, rest);
        if !exitOnFailure {
          ServeWrapped(total, rest, exitOnFailure);
        }
      case Received(operationType, argument, rest) =>
        ServeReceived(total, data, exitOnFailure, operationType, argument, rest);
        ServeReceived(Wrap64(total), data, exitOnFailure, operationType, argument, rest);
        if operationType != OPERATION_TERMINATION {
          var e := Effect(operationType, argument);
          WrapAdd64(total, e);
          ServeWrapped(Wrap64(total) + e, rest, exitOnFailure);
          ServeWrapped(total + e, rest, exitOnFailure);
        }
    }
  }

  /** One received message, whatever stream it came from. */
  lemma ServeReceived(total: int, data: seq<byte>, exitOnFailure: bool,
                      t: Int32, a: Int64, rest: seq<byte>)
    requires RecvSpec(data) == Received(t, a, rest)
    ensures Serve(total, data, exitOnFailure) ==
            if t == OPERATION_TERMINATION then Replied(Wrap64(total), Wrap32(Wrap64(total)), rest)
            else Serve(total + Effect(t, a), rest, exitOnFailure)
  {
  }

  /** One failed receive, whatever stream it came from. */
  lemma ServeFailed(total: int, data: seq<byte>, exitOnFailure: bool, rest: seq<byte>)
    requires RecvSpec(data) == RecvFailed(rest)
    ensures Serve(total, data, exitOnFailure) ==
            if exitOnFailure then Exited(Wrap64(total)) else Serve(total, rest, exitOnFailure)
  {
  }

  /** A loop that is not undefined starts with a receive that is not. */
  lemma ServeDefined(total: int, data: seq<byte>, exitOnFailure: bool)
    requires !Serve(total, data, exitOnFailure).Undefined?
    ensures !RecvSpec(data).RecvUndefined?
  {
    if data != [] {
      assert Serve(total, data, exitOnFailure) == Turn(total, data, exitOnFailure);
    }
  }

  /** A turn that does not end the loop, in the terms the dispatch uses:
      after an ADD, SUB or other non-TERMINATE message, or after a failed
      receive (outputs left at 0) in the worker's loop, the wrapped counter
      goes on with the rest of the stream, which is shorter unless the
      stream was already exhausted. */
  lemma ServeContinues(counter: Int64, data: seq<byte>, exitOnFailure: bool,
                       t: Int32, a: Int64, rest: seq<byte>)
    requires || (RecvSpec(data) == Received(t, a, rest) && t != OPERATION_TERMINATION)
             || (RecvSpec(data) == RecvFailed(rest) && !exitOnFailure && t == 0)
    ensures Serve(Wrap64(counter as int + Effect(t, a)), rest, exitOnFailure) == Serve(counter, data, exitOnFailure)
    ensures |rest| < |data| || (data == [] && rest == [])
  {
    if RecvSpec(data).Received? {
      ServeOperationStep(counter, data, exitOnFailure, t, a, rest);
    } else {
      ServeRetryStep(counter, data, exitOnFailure, rest);
      assert Wrap64(counter as int + Effect(t, a)) == counter;
    }
  }

  lemma ServeOperationStep(counter: Int64, data: seq<byte>, exitOnFailure: bool,
                           t: Int32, a: Int64, rest: seq<byte>)
    requires RecvSpec(data) == Received(t, a, rest) && t != OPERATION_TERMINATION
    ensures Serve(Wrap64(counter as int + Effect(t, a)), rest, exitOnFailure) == Serve(counter, data, exitOnFailure)
    ensures |rest| < |data|
  {
    ServeReceived(counter, data, exitOnFailure, t, a, rest);
    ServeWrapped(counter + Effect(t, a), rest, exitOnFailure);
  }

  lemma ServeRetryStep(counter: Int64, data: seq<byte>, exitOnFailure: bool, rest: seq<byte>)
    requires RecvSpec(data) == RecvFailed(rest) && !exitOnFailure
    ensures Serve(counter, rest, exitOnFailure) == Serve(counter, data, exitOnFailure)
    ensures |rest| < |data| || (data == [] && rest == [])
  {
    ServeFailed(counter, data, exitOnFailure, rest);
  }

  /** The dispatch rules, one frame at a time: ADD adds its argument, SUB
      subtracts it, any other type leaves the counter alone, and TERMINATE
      replies with the counter narrowed to 32 bits and reads nothing
      further. */
  lemma ServeOneFrame(total: int, m: Message, rest: seq<byte>, exitOnFailure: bool)
    ensures Serve(total, FrameOf(m) + rest, exitOnFailure) ==
            if m.opType == OPERATION_TERMINATION then Replied(Wrap64(total), Wrap32(Wrap64(total)), rest)
            else Serve(total + Effect(m.opType, m.argument), rest, exitOnFailure)
  {
    RecvSendRoundTrip(m, rest);
    ServeReceived(total, FrameOf(m) + rest, exitOnFailure, m.opType, m.argument, rest);
  }

  // ---------------------------------------------------------------------
  // Message sequences on one connection

  /** The octets of a sequence of messages, each sent with send_msg. */
  function RequestBytes(msgs: seq<Message>): seq<byte>
  {
    if msgs == [] then [] else FrameOf(msgs[0]) + RequestBytes(msgs[1..])
  }

  lemma {:induction false} RequestBytesAppend(a: seq<Message>, b: seq<Message>)
    ensures RequestBytes(a + b) == RequestBytes(a) + RequestBytes(b)
  {
    if a != [] {
      assert (a + b)[1..] == a[1..] + b;
      RequestBytesAppend(a[1..], b);
    } else {
      assert a + b == b;
    }
  }

  /** The octets of a non-empty message sequence: its first frame, then the rest. */
  lemma RequestBytesCons(msgs: seq<Message>, rest: seq<byte>)
    requires msgs != []
    ensures RequestBytes(msgs) + rest == FrameOf(msgs[0]) + (RequestBytes(msgs[1..]) + rest)
  {
  }

  predicate HasTermination(msgs: seq<Message>)
  {
    msgs != [] && (msgs[0].opType == OPERATION_TERMINATION || HasTermination(msgs[1..]))
  }

  /** The messages after the first TERMINATE. */
  function AfterTermination(msgs: seq<Message>): seq<Message>
    requires HasTermination(msgs)
  {
    if msgs[0].opType == OPERATION_TERMINATION then msgs[1..] else AfterTermination(msgs[1..])
  }

  /** Net change requested before the first TERMINATE: the ADD arguments
      minus the SUB arguments. */
  function Net(msgs: seq<Message>): int
  {
    if msgs == [] || msgs[0].opType == OPERATION_TERMINATION then 0
    else Effect(msgs[0].opType, msgs[0].argument) + Net(msgs[1..])
  }

  /** Messages before a TERMINATE and messages after them: the net change
      adds up, and the first TERMINATE is the second part's. */
  lemma {:induction false} NetAppend(a: seq<Message>, b: seq<Message>)
    requires !HasTermination(a)
    ensures Net(a + b) == Net(a) + Net(b)
    ensures HasTermination(a + b) == HasTermination(b)
    ensures HasTermination(b) ==> AfterTermination(a + b) == AfterTermination(b)
  {
    if a == [] {
      assert a + b == b;
    } else {
      assert (a + b)[1..] == a[1..] + b;
      NetAppend(a[1..], b);
    }
  }

  /** One connection carrying whole frames and a TERMINATE: the reply is
      the starting counter plus the net effect of the operations before the
      first TERMINATE (modulo 2^64, then narrowed to 32 bits), and nothing
      after that TERMINATE is read. */
  lemma {:induction false} ServeRequests(total: int, msgs: seq<Message>, rest: seq<byte>, exitOnFailure: bool)
    requires HasTermination(msgs)
    ensures Serve(total, RequestBytes(msgs) + rest, exitOnFailure) ==
            Replied(Wrap64(total + Net(msgs)), Wrap32(Wrap64(total + Net(msgs))),
                    RequestBytes(AfterTermination(msgs)) + rest)
    decreases msgs
  {
    var m := msgs[0];
    RequestBytesCons(msgs, rest);
    ServeOneFrame(total, m, RequestBytes(msgs[1..]) + rest, exitOnFailure);
    if m.opType != OPERATION_TERMINATION {
      ServeRequests(total + Effect(m.opType, m.argument), msgs[1..], rest, exitOnFailure);
    }
  }

  /** Whole frames without a TERMINATE: the loop carries their net effect
      on into whatever follows them. */
  lemma {:induction false} ServeOperations(total: int, msgs: seq<Message>, rest: seq<byte>, exitOnFailure: bool)
    requires !HasTermination(msgs)
    ensures Serve(total, RequestBytes(msgs) + rest, exitOnFailure) ==
            Serve(total + Net(msgs), rest, exitOnFailure)
    decreases msgs
  {
    if msgs == [] {
      assert RequestBytes(msgs) + rest == rest;
    } else {
      var m, tail := msgs[0], RequestBytes(msgs[1..]) + rest;
      var next := total + Effect(m.opType, m.argument);
      RequestBytesCons(msgs, rest);
      ServeOneFrame(total, m, tail, exitOnFailure);
      assert Serve(total, RequestBytes(msgs) + rest, exitOnFailure) == Serve(next, tail, exitOnFailure);
      ServeOperations(next, msgs[1..], rest, exitOnFailure);
      assert next + Net(msgs[1..]) == total + Net(msgs);
    }
  }

  /** Once the stream is exhausted every receive fails: the worker's loop
      is at a fixpoint where the counter no longer changes, and the
      listener's variant exits. The same holds for a stream whose last
      frame announces size 0 or has no payload after its prefix. */
  lemma ServeExhausted(total: int)
    ensures RecvSpec([]) == RecvFailed([])
    ensures forall data :: RecvSpec(data) == RecvFailed([]) ==>
              Serve(total, data, false) == Spinning(Wrap64(total)) &&
              Serve(total, data, true) == Exited(Wrap64(total))
  {
    forall data | RecvSpec(data) == RecvFailed([])
      ensures Serve(total, data, false) == Spinning(Wrap64(total))
      ensures Serve(total, data, true) == Exited(Wrap64(total))
    {
      ServeFailed(total, data, false, []);
      ServeFailed(total, data, true, []);
    }
  }

  // ---------------------------------------------------------------------
  // Round-robin assignment

  /** The epoll set that the connection with ordinal `connNb` goes to. */
  function Target(connNb: nat, numThreads: int): (t: nat)
    requires numThreads >= 1
    ensures t < numThreads
  {
    connNb % numThreads
  }

  lemma {:induction false} MulAtLeast(a: int, m: int)
    requires a >= 1 && m > 0
    ensures a * m >= m
  {
    if a > 1 {
      MulAtLeast(a - 1, m);
      assert a * m == (a - 1) * m + m;
    }
  }

  lemma DivModUnique(x: int, d: int, r: int, m: int)
    requires m > 0 && 0 <= r < m && x == d * m + r
    ensures x % m == r
  {
    var d' := x / m;
    var r' := x % m;
    assert x == d' * m + r';
    assert (d - d') * m == r' - r;
    if d - d' >= 1 {
      MulAtLeast(d - d', m);
    } else if d' - d >= 1 {
      MulAtLeast(d' - d, m);
    }
  }

  /** Round-robin: each accepted connection goes to the set after the one
      its predecessor went to, wrapping from the last set to set 0; the
      pattern repeats every numThreads connections. */
  lemma RoundRobinNext(connNb: nat, numThreads: int)
    requires numThreads >= 1
    ensures Target(connNb + 1, numThreads) ==
            if Target(connNb, numThreads) == numThreads - 1 then 0 else Target(connNb, numThreads) + 1
    ensures Target(connNb + numThreads, numThreads) == Target(connNb, numThreads)
  {
    var q := connNb / numThreads;
    var r := connNb % numThreads;
    assert connNb == q * numThreads + r;
    if r + 1 < numThreads {
      DivModUnique(connNb + 1, q, r + 1, numThreads);
    } else {
      assert connNb + 1 == (q + 1) * numThreads + 0;
      DivModUnique(connNb + 1, q + 1, 0, numThreads);
    }
    assert connNb + numThreads == (q + 1) * numThreads + r;
    DivModUnique(connNb + numThreads, q + 1, r, numThreads);
  }

  /** main's table of epoll sets: set 0 for the listener thread, then one
      set, and one conn_server thread with that index, for each of the
      indices 1 .. numThreads-1. A set is modelled by the file descriptors
      registered in it. */
  method BuildEpollSets(numThreads: int) returns (epfds: seq<seq<int>>, workers: seq<nat>)
    ensures |epfds| == if numThreads >= 1 then numThreads else 1
    ensures forall k :: 0 <= k < |epfds| ==> epfds[k] == []
    ensures |workers| == |epfds| - 1
    ensures forall w :: 0 <= w < |workers| ==> workers[w] == w + 1
  {
    epfds := [[]];
    workers := [];
    var i := 1;
    while i < numThreads
      invariant 1 <= i <= (if numThreads >= 1 then numThreads else 1)
      invariant |epfds| == i && |workers| == i - 1
      invariant forall k :: 0 <= k < |epfds| ==> epfds[k] == []
      invariant forall w :: 0 <= w < |workers| ==> workers[w] == w + 1
    {
      epfds := epfds + [[]];
      workers := workers + [i];
      i := i + 1;
    }
  }

  class Server {
    /** The shared counter (`std::atomic<int64_t> number`). */
    var number: Int64
    /** Connections accepted so far (`std::atomic<int64_t> conn_nb`). */
    var connNb: nat
    /** The file descriptors registered in each epoll set. */
    var epfds: seq<seq<int>>
    /** The epoll-set index of each conn_server thread. */
    var workers: seq<nat>
    const numThreads: int

    ghost predicate Valid()
      reads this
    {
      |epfds| == (if numThreads >= 1 then numThreads else 1) &&
      |workers| == |epfds| - 1 &&
      forall w :: 0 <= w < |workers| ==> workers[w] == w + 1
    }

    /** main: the counter and conn_nb start at 0, and the epoll sets are
        built before any thread runs. */
    constructor (numThreads: int)
      ensures Valid() && this.numThreads == numThreads
      ensures number == 0 && connNb == 0
      ensures forall k :: 0 <= k < |epfds| ==> epfds[k] == []
    {
      var sets, threads := BuildEpollSets(numThreads);
      this.numThreads := numThreads;
      number, connNb := 0, 0;
      epfds, workers := sets, threads;
    }

    /** listen_server's start: register the listening socket in set 0. */
    method RegisterListener(listenfd: int)
      requires Valid()
      modifies this`epfds
      ensures Valid()
      ensures epfds == old(epfds)[0 := old(epfds)[0] + [listenfd]]
    {
      epfds := epfds[0 := epfds[0] + [listenfd]];
    }

    /** One readiness event on the listening socket. `connfd` is what
        accept returned (-1 on failure). err_report exits when it is 1; any
        other value takes the next ordinal, even a failed accept, and the
        descriptor is registered in set `ordinal mod numThreads`, which
        epoll_ctl refuses for -1. numThreads must be positive (the modulo
        divides by it) and the ordinal must fit the `int cur_conn_nb`. */
    method OnListenEvent(connfd: int) returns (exited: bool)
      requires Valid() && numThreads >= 1 && connNb < TWO_31
      modifies this`connNb, this`epfds
      ensures Valid()
      ensures exited <==> connfd == 1
      ensures exited ==> connNb == old(connNb) && epfds == old(epfds)
      ensures !exited ==> connNb == old(connNb) + 1
      ensures !exited && connfd >= 0 ==>
                var t := Target(old(connNb), numThreads);
                epfds == old(epfds)[t := old(epfds)[t] + [connfd]]
      ensures !exited && connfd < 0 ==> epfds == old(epfds)
    {
      if connfd == 1 {
        return true;
      }
      var curConnNb := Wrap32(connNb);
      connNb := connNb + 1;
      var targetThread := curConnNb % numThreads;
      if connfd >= 0 {
        epfds := epfds[targetThread := epfds[targetThread] + [connfd]];
      }
      return false;
    }

    /** The TERMINATE case: send the counter through `int cur_number` as a
        type-4 message and close the connection; the result of the send is
        not looked at. */
    method SendCounter(sock: Socket) returns (curNumber: Int32)
      modifies sock`tx, sock`room, sock`open
      ensures curNumber == Wrap32(number)
      ensures sock.tx == old(sock.tx) + Truncate(FrameOf(Message(OPERATION_COUNTER, curNumber)), old(sock.room))
      ensures !sock.open
    {
      curNumber := Wrap32(number);
      var _ := SendMsg(sock, OPERATION_COUNTER, curNumber);
      sock.Close();
    }

    /** The ADD and SUB cases: fetch_add(argument) or fetch_add(-argument),
        which wrap around; any other type leaves the counter alone. */
    method Apply(operationType: Int32, argument: Int64)
      modifies this`number
      ensures number == Wrap64(old(number) as int + Effect(operationType, argument))
    {
      if operationType == OPERATION_ADD {
        number := Wrap64(number as int + argument as int);
      } else if operationType == OPERATION_SUB {
        number := Wrap64(number as int - argument as int);
      }
    }

    /** One pass of the inner `while (true)` loop of conn_server
        (exitOnFailure false) and of listen_server (exitOnFailure true):
        receive a message into zeroed variables, then apply ADD or SUB to
        the counter, or on TERMINATE reply and leave the loop. `done` when
        the pass ends the loop: a reply was sent, err_report ended the
        process, or the stream is exhausted and the loop can only spin. */
    method Pass(sock: Socket, exitOnFailure: bool) returns (done: bool, result: ServeResult)
      requires !Serve(number, sock.rx, exitOnFailure).Undefined?
      modifies this`number, sock
      ensures done ==> result == Serve(old(number), old(sock.rx), exitOnFailure) && number == result.counter
      ensures done && result.Replied? ==>
                sock.rx == result.rest && !sock.open &&
                sock.tx == old(sock.tx) + Truncate(FrameOf(Message(OPERATION_COUNTER, result.reply)), old(sock.room))
      ensures done && result.Spinning? ==> sock.rx == []
      ensures !done ==> Serve(number, sock.rx, exitOnFailure) == Serve(old(number), old(sock.rx), exitOnFailure)
      ensures !done ==> |sock.rx| < |old(sock.rx)|
      ensures !(done && result.Replied?) ==> sock.tx == old(sock.tx) && sock.room == old(sock.room) && sock.open == old(sock.open)
    {
      ghost var before, total := sock.rx, number;
      ServeDefined(total, before, exitOnFailure);
      var ret, operationType, argument := RecvMsg(sock, 0, 0);
      if exitOnFailure && ret == 1 {
        ServeFailed(total, before, exitOnFailure, sock.rx);
        return true, Exited(number);
      }
      if operationType == OPERATION_TERMINATION {
        ServeReceived(total, before, exitOnFailure, operationType, argument, sock.rx);
        var curNumber := SendCounter(sock);
        return true, Replied(number, curNumber, sock.rx);
      }
      ServeContinues(total, before, exitOnFailure, operationType, argument, sock.rx);
      Apply(operationType, argument);
      if ret == 1 && sock.rx == [] {
        return true, Spinning(number);
      }
      return false, Spinning(number);
    }

    /** The inner `while (true)` loop on one connection, pass after pass,
        until a pass ends it. */
    method ServeConnection(sock: Socket, exitOnFailure: bool) returns (result: ServeResult)
      requires !Serve(number, sock.rx, exitOnFailure).Undefined?
      modifies this`number, sock
      ensures result == Serve(old(number), old(sock.rx), exitOnFailure)
      ensures number == result.counter
      ensures result.Replied? ==>
                sock.rx == result.rest && !sock.open &&
                sock.tx == old(sock.tx) + Truncate(FrameOf(Message(OPERATION_COUNTER, result.reply)), old(sock.room))
      ensures !result.Replied? ==> sock.tx == old(sock.tx) && sock.open == old(sock.open)
      ensures result.Spinning? ==> sock.rx == []
    {
      while true
        invariant Serve(number, sock.rx, exitOnFailure) == Serve(old(number), old(sock.rx), exitOnFailure)
        invariant sock.tx == old(sock.tx) && sock.room == old(sock.room) && sock.open == old(sock.open)
        decreases |sock.rx|
      {
        var done;
        done, result := Pass(sock, exitOnFailure);
        if done {
          return;
        }
      }
    }
  }
}
