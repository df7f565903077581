/** The length-prefixed framing of `send_msg` / `recv_msg`: the payload size
    is written as ASCII decimal digits into a zeroed 4-octet buffer and read
    back with `atoi`, then exactly that many payload octets follow. */
module Utils {
  import opened Wire
  import opened Rio

  /** sizeof(uint32_t): the width of the size prefix on the wire. */
  const SIZE_BUF_LEN: nat := 4

  const ZERO_CHAR: byte := 48   // '0'
  const PLUS_CHAR: byte := 43   // '+'
  const MINUS_CHAR: byte := 45  // '-'

  predicate IsDigit(b: byte)
  {
    ZERO_CHAR <= b <= ZERO_CHAR + 9
  }

  /** isspace() in the "C" locale. */
  predicate IsSpace(b: byte)
  {
    b == 32 || 9 <= b <= 13
  }

  // ---------------------------------------------------------------------
  // Decimal numerals

  function Pow10(k: nat): (p: nat)
    ensures p >= 1
  {
    if k == 0 then 1 else 10 * Pow10(k - 1)
  }

  lemma {:induction false} Pow10Monotone(j: nat, k: nat)
    requires j <= k
    ensures Pow10(j) <= Pow10(k)
  {
    if j < k {
      Pow10Monotone(j, k - 1);
    }
  }

  lemma Pow10Values()
    ensures Pow10(3) == 1000 && Pow10(4) == 10000
  {
    assert Pow10(1) == 10;
    assert Pow10(2) == 100;
  }

  /** The digit count that `to_char_array` obtains as `log10(n) + 1`:
      the d with 10^(d-1) <= n < 10^d. */
  function NumDigits(n: nat): (d: nat)
    requires n >= 1
    ensures d >= 1 && Pow10(d - 1) <= n < Pow10(d)
  {
    if n < 10 then 1 else 1 + NumDigits(n / 10)
  }

  /** A numeral fits in k digits exactly when the number is below 10^k. */
  lemma {:induction false} DigitsBelow(n: nat, k: nat)
    requires n >= 1
    ensures NumDigits(n) <= k <==> n < Pow10(k)
  {
    var d := NumDigits(n);
    if d <= k {
      Pow10Monotone(d, k);
    } else {
      Pow10Monotone(k, d - 1);
    }
  }

  /** The decimal numeral of `n` in ASCII, most significant digit first. */
  function Decimal(n: nat): (s: seq<byte>)
    requires n >= 1
    ensures |s| == NumDigits(n)
    ensures forall i :: 0 <= i < |s| ==> IsDigit(s[i])
    ensures s[0] != ZERO_CHAR
  {
    if n < 10 then [ZERO_CHAR + n] else Decimal(n / 10) + [ZERO_CHAR + n % 10]
  }

  /** The value of a string of ASCII digits, most significant first. */
  function DigitsValue(s: seq<byte>): int
  {
    if s == [] then 0 else DigitsValue(s[..|s| - 1]) * 10 + (s[|s| - 1] - ZERO_CHAR)
  }

  /** Reading a numeral back gives the number it was written from. */
  lemma {:induction false} DecimalValue(n: nat)
    requires n >= 1
    ensures DigitsValue(Decimal(n)) == n
  {
    if n >= 10 {
      var s := Decimal(n);
      assert s[..|s| - 1] == Decimal(n / 10);
      DecimalValue(n / 10);
    }
  }

  function Zeros(k: nat): (z: seq<byte>)
    ensures |z| == k && forall i :: 0 <= i < k ==> z[i] == 0
  {
    seq(k, _ => 0)
  }

  /** The four octets of the buffer `to_char_array(n)` returns: the numeral,
      then the zeros `calloc` left in place. */
  function PrefixBytes(n: int): (s: seq<byte>)
    requires 1 <= n <= 9999
    ensures |s| == SIZE_BUF_LEN
  {
    Pow10Values();
    DigitsBelow(n, 4);
    Decimal(n) + Zeros(SIZE_BUF_LEN - NumDigits(n))
  }

  /** One step of to_char_array's loop: with `rest` the number whose
      numeral is the first i+1 digits of `number`'s, digit i is the last
      digit of `rest`, and dropping it leaves the numeral of rest / 10. */
  lemma NumeralStep(number: nat, rest: nat, i: nat)
    requires number >= 1 && rest >= 1 && i < NumDigits(number)
    requires Decimal(rest) == Decimal(number)[..i + 1]
    ensures Decimal(number)[i] == ZERO_CHAR + rest % 10
    ensures i > 0 ==> rest / 10 >= 1 && Decimal(rest / 10) == Decimal(number)[..i]
  {
    var d := Decimal(rest);
    assert d[i] == Decimal(number)[i];
    if i > 0 {
      assert rest >= 10;
      assert Decimal(rest / 10) == d[..i];
    }
  }

  /** The buffer after to_char_array has written the digits after index i. */
  ghost function Written(digits: seq<byte>, i: int): (s: seq<byte>)
    requires -1 <= i < |digits| <= SIZE_BUF_LEN
    ensures |s| == SIZE_BUF_LEN
  {
    Zeros(i + 1) + digits[i + 1..] + Zeros(SIZE_BUF_LEN - |digits|)
  }

  lemma WrittenStep(digits: seq<byte>, i: int)
    requires 0 <= i < |digits| <= SIZE_BUF_LEN
    ensures Written(digits, i)[i := digits[i]] == Written(digits, i - 1)
  {
  }

  /** to_char_array: fill a zeroed 4-octet buffer with the decimal digits of
      `number`, least significant digit last. A number of 10000 or more would
      write past the buffer, and `log10` has no digit count for number <= 0. */
  method ToCharArray(number: int) returns (numberArray: array<byte>)
    requires 1 <= number <= 9999
    ensures numberArray.Length == SIZE_BUF_LEN
    ensures numberArray[..] == PrefixBytes(number)
  {
    Pow10Values();
    DigitsBelow(number, 4);
    var n := NumDigits(number);
    numberArray := new byte[SIZE_BUF_LEN](_ => 0);
    ghost var digits := Decimal(number);
    assert numberArray[..] == Written(digits, n - 1);
    var i := n - 1;
    var rest := number;
    while i >= 0
      invariant -1 <= i < n
      invariant i >= 0 ==> rest >= 1 && Decimal(rest) == digits[..i + 1]
      invariant numberArray[..] == Written(digits, i)
    {
      NumeralStep(number, rest, i);
      WrittenStep(digits, i);
      numberArray[i] := rest % 10 + ZERO_CHAR;
      i, rest := i - 1, rest / 10;
    }
    assert Zeros(0) + digits[0..] == digits;
  }

  // ---------------------------------------------------------------------
  // atoi on the 4-octet size buffer

  /** atoi's digit loop: the numeral started at `start` and has reached
      `i`. The value is known once an octet that is not a digit stops the
      scan; `None` when the scan reaches the end of the buffer first, where
      atoi would go on reading memory that is not part of it. */
  function AtoiDigits(s: seq<byte>, start: nat, i: nat): Option<int>
    requires start <= i <= |s|
    decreases |s| - i
  {
    if i == |s| then None
    else if IsDigit(s[i]) then AtoiDigits(s, start, i + 1)
    else Some(DigitsValue(s[start..i]))
  }

  /** atoi from index `i`: skip white space, take an optional sign, then
      the digits. */
  function AtoiFrom(s: seq<byte>, i: nat): Option<int>
    requires i <= |s|
    decreases |s| - i
  {
    if i == |s| then None
    else if IsSpace(s[i]) then AtoiFrom(s, i + 1)
    else if s[i] == MINUS_CHAR then
      match AtoiDigits(s, i + 1, i + 1)
      case None => None
      case Some(v) => Some(-v)
    else if s[i] == PLUS_CHAR then AtoiDigits(s, i + 1, i + 1)
    else AtoiDigits(s, i, i)
  }

  /** The value atoi returns for the buffer, or `None` when its scan runs
      past the end of the buffer. */
  function Atoi(s: seq<byte>): Option<int>
  {
    AtoiFrom(s, 0)
  }

  /** A run of digits does not stop the scan. */
  lemma {:induction false} AtoiDigitsSkip(s: seq<byte>, start: nat, i: nat, j: nat)
    requires start <= i <= j <= |s|
    requires forall k :: i <= k < j ==> IsDigit(s[k])
    ensures AtoiDigits(s, start, i) == AtoiDigits(s, start, j)
    decreases j - i
  {
    if i < j {
      AtoiDigitsSkip(s, start, i + 1, j);
    }
  }

  /** atoi reads back the size that to_char_array wrote exactly when the
      numeral has at most three digits; a four-digit numeral fills the buffer
      and leaves no octet to stop the scan. */
  lemma AtoiOfPrefix(n: int)
    requires 1 <= n <= 9999
    ensures Atoi(PrefixBytes(n)).Some? <==> n <= 999
    ensures n <= 999 ==> Atoi(PrefixBytes(n)) == Some(n)
  {
    Pow10Values();
    DigitsBelow(n, 3);
    var s := PrefixBytes(n);
    var d := Decimal(n);
    assert s[0] == d[0];
    assert Atoi(s) == AtoiDigits(s, 0, 0);
    AtoiDigitsSkip(s, 0, 0, |d|);
    if |d| < SIZE_BUF_LEN {
      assert s[|d|] == 0;
      assert s[0..|d|] == d;
      DecimalValue(n);
    }
  }

  // ---------------------------------------------------------------------
  // Frames

  /** What send_msg puts on the wire for one payload: the size prefix, then
      the payload octets. */
  function FrameBytes(payload: seq<byte>): seq<byte>
    requires 1 <= |payload| <= 9999
  {
    PrefixBytes(|payload|) + payload
  }

  /** The frame of one message. */
  function FrameOf(m: Message): seq<byte>
  {
    FrameBytes(Serialize(m))
  }

  /** What one recv_msg call does to a stream. */
  datatype RecvResult =
    | RecvFailed(rest: seq<byte>)                                 // returns 1, outputs untouched
    | Received(opType: Int32, argument: Int64, rest: seq<byte>)  // returns 0
    | RecvUndefined                                               // the C++ behaviour is undefined

  /** recv_msg applied to the octets `data` still to be read. A read that
      ends the stream after 0 octets makes recv_msg fail; a read cut short
      after some octets leaves part of a buffer uninitialised, and a size
      buffer whose four octets are all numeral lets atoi run past it: both
      are undefined behaviour. */
  function RecvSpec(data: seq<byte>): (r: RecvResult)
    ensures !r.RecvUndefined? ==> |r.rest| <= |data| && r.rest == data[|data| - |r.rest|..]
    ensures !r.RecvUndefined? && data != [] ==> |r.rest| < |data|
  {
    if |data| == 0 then RecvFailed([])
    else if |data| < SIZE_BUF_LEN then RecvUndefined
    else
      var sizeBuf := data[..SIZE_BUF_LEN];
      var body := data[SIZE_BUF_LEN..];
      if Atoi(sizeBuf).None? then RecvUndefined
      else
        var size := Atoi(sizeBuf).value % TWO_32;
        if size == 0 || |body| == 0 then RecvFailed(body)
        else if |body| < size then RecvUndefined
        else
          match Parse(body[..size])
          case Some(m) => Received(m.opType, m.argument, body[size..])
          case None => Received(0, 0, body[size..])
  }

  /** Framing round trip: a frame whose payload has 1..999 octets is read
      back whole, and the octets after it stay for the next call. */
  lemma RecvFrame(payload: seq<byte>, rest: seq<byte>)
    requires 1 <= |payload| <= 999
    ensures RecvSpec(FrameBytes(payload) + rest) ==
            match Parse(payload)
            case Some(m) => Received(m.opType, m.argument, rest)
            case None => Received(0, 0, rest)
  {
    var data := FrameBytes(payload) + rest;
    AtoiOfPrefix(|payload|);
    assert data[..SIZE_BUF_LEN] == PrefixBytes(|payload|);
    var body := data[SIZE_BUF_LEN..];
    assert body == payload + rest;
    assert body[..|payload|] == payload && body[|payload|..] == rest;
  }

  /** A payload of 1000..9999 octets gets a four-digit prefix that atoi
      cannot stop inside, so the receiving side is undefined. */
  lemma RecvFrameOverrun(payload: seq<byte>, rest: seq<byte>)
    requires 1000 <= |payload| <= 9999
    ensures RecvSpec(FrameBytes(payload) + rest).RecvUndefined?
  {
    var data := FrameBytes(payload) + rest;
    AtoiOfPrefix(|payload|);
    assert data[..SIZE_BUF_LEN] == PrefixBytes(|payload|);
  }

  /** recv_msg reads back exactly the message send_msg framed. */
  lemma RecvSendRoundTrip(m: Message, rest: seq<byte>)
    ensures RecvSpec(FrameOf(m) + rest) == Received(m.opType, m.argument, rest)
  {
    ParseSerialize(m);
    RecvFrame(Serialize(m), rest);
  }

  // ---------------------------------------------------------------------
  // send_msg and recv_msg

  /** The framing part of send_msg: write the 4-octet size prefix, then the
      payload, returning 1 at the first write that reports <= 0 octets
      (the payload is not attempted after a failed prefix) and 0 otherwise. */
  method WriteFrame(sock: Socket, payload: seq<byte>) returns (ret: int)
    requires 1 <= |payload| <= 9999
    modifies sock`tx, sock`room
    ensures sock.tx == old(sock.tx) + Truncate(FrameBytes(payload), old(sock.room))
    ensures sock.room == RoomAfter(old(sock.room), |FrameBytes(payload)|)
    ensures ret == if |FrameBytes(payload)| <= old(sock.room) then 0 else 1
  {
    var sizeBuf := ToCharArray(|payload|);
    var sizeRet := sock.WriteN(sizeBuf[..]);
    TruncateAppend(sizeBuf[..], payload, old(sock.room));
    if sizeRet <= 0 {
      return 1;
    }
    var payloadRet := sock.WriteN(payload);
    if payloadRet <= 0 {
      return 1;
    }
    return 0;
  }

  /** send_msg: serialise the message and write it as one frame. */
  method SendMsg(sock: Socket, operationType: Int32, argument: Int64) returns (ret: int)
    modifies sock`tx, sock`room
    ensures sock.tx == old(sock.tx) + Truncate(FrameOf(Message(operationType, argument)), old(sock.room))
    ensures sock.room == RoomAfter(old(sock.room), |FrameOf(Message(operationType, argument))|)
    ensures ret == if |FrameOf(Message(operationType, argument))| <= old(sock.room) then 0 else 1
  {
    var payload := Serialize(Message(operationType, argument));
    ret := WriteFrame(sock, payload);
  }

  /** recv_msg: read the size prefix, then that many payload octets, and
      only then store the operation type and argument. `operationType0` and
      `argument0` are what the caller's output variables held before. */
  method RecvMsg(sock: Socket, operationType0: Int32, argument0: Int64)
    returns (ret: int, operationType: Int32, argument: Int64)
    requires !RecvSpec(sock.rx).RecvUndefined?
    modifies sock`rx
    ensures RecvSpec(old(sock.rx)).RecvFailed? ==>
              ret == 1 && operationType == operationType0 && argument == argument0 &&
              sock.rx == RecvSpec(old(sock.rx)).rest
    ensures RecvSpec(old(sock.rx)).Received? ==>
              ret == 0 && operationType == RecvSpec(old(sock.rx)).opType &&
              argument == RecvSpec(old(sock.rx)).argument && sock.rx == RecvSpec(old(sock.rx)).rest
  {
    operationType, argument := operationType0, argument0;
    var sizeRet, sizeBuf := sock.ReadN(SIZE_BUF_LEN);
    if sizeRet <= 0 {
      return 1, operationType, argument;
    }
    var size := Atoi(sizeBuf).value % TWO_32;
    var payloadRet, payloadBuf := sock.ReadN(size);
    if payloadRet <= 0 {
      return 1, operationType, argument;
    }
    match Parse(payloadBuf) {
      case Some(m) =>
        operationType, argument := m.opType, m.argument;
      case None =>
        operationType, argument := 0, 0;
    }
    return 0, operationType, argument;
  }
}
