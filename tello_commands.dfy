/**
 * The command side of the Tello client: the text of each command, the classification of the
 * replies `sendCmd` waits for, and the `Short.reverseBytes` helper.
 */
module TelloCommands {
  import opened Wrappers
  import opened KotlinText

  // ---------------------------------------------------------------- command texts

  /** The commands the client can send; the numbers are Kotlin `Int`s. */
  datatype Command =
    | Enable | Emergency | TakeOff | Land | StreamOn | StreamOff
    | Speed(speed: int32)
    | Rc(x: int32, y: int32, z: int32, yaw: int32)
    | Rotate(angle: int32)

  /**
   * The words of each command: a keyword and its decimal arguments. `rotate` picks `cw` for a
   * positive angle and `ccw` with the negated angle otherwise, so `Rotate(0)` is `ccw 0`.
   */
  function Words(c: Command): (w: seq<string>)
    ensures |w| >= 1 && NoSpaces(w)
  {
    match c
    case Enable => ["command"]
    case Emergency => ["emergency"]
    case TakeOff => ["takeoff"]
    case Land => ["land"]
    case StreamOn => ["streamon"]
    case StreamOff => ["streamoff"]
    case Speed(v) =>
      NoSpaceInNumber(v);
      KeywordAndNumber("speed", IntToString(v));
      ["speed", IntToString(v)]
    case Rc(x, y, z, yaw) =>
      RcWordsHaveNoSpace(x, y, z, yaw);
      ["rc", IntToString(x), IntToString(y), IntToString(z), IntToString(yaw)]
    case Rotate(angle) =>
      if angle > 0 then
        NoSpaceInNumber(angle);
        KeywordAndNumber("cw", IntToString(angle));
        ["cw", IntToString(angle)]
      else
        NoSpaceInNumber(Negate32(angle));
        KeywordAndNumber("ccw", IntToString(Negate32(angle)));
        ["ccw", IntToString(Negate32(angle))]
  }

  /**
   * The datagram text: the words separated by single spaces (the Kotlin string templates).
   * No word contains a space, so splitting the text on spaces gives back exactly the words.
   */
  function CommandText(c: Command): (s: string)
    ensures Split(s, ' ') == Words(c)
  {
    SplitJoin(Words(c), ' ');
    Join(Words(c), ' ')
  }

  /**
   * How the drone reads a command text: the reference against which `CommandText` is checked.
   * `cw` takes a positive magnitude, `ccw` a non-negative one.
   */
  function ReadCommand(text: string): Option<Command>
  {
    ReadWords(Split(text, ' '))
  }

  function ReadWords(w: seq<string>): Option<Command>
  {
    if |w| == 1 then ReadKeyword(w[0])
    else if |w| == 2 && ParseInt(w[1]).Some? then
      var n := ParseInt(w[1]).value;
      if w[0] == "speed" then Some(Speed(n))
      else if w[0] == "cw" && n > 0 then Some(Rotate(n))
      else if w[0] == "ccw" && n >= 0 then Some(Rotate(Negate32(n)))
      else None
    else if |w| == 5 && w[0] == "rc" && ParseInt(w[1]).Some? && ParseInt(w[2]).Some?
            && ParseInt(w[3]).Some? && ParseInt(w[4]).Some? then
      Some(Rc(ParseInt(w[1]).value, ParseInt(w[2]).value, ParseInt(w[3]).value, ParseInt(w[4]).value))
    else None
  }

  function ReadKeyword(k: string): Option<Command>
  {
    if k == "command" then Some(Enable)
    else if k == "emergency" then Some(Emergency)
    else if k == "takeoff" then Some(TakeOff)
    else if k == "land" then Some(Land)
    else if k == "streamon" then Some(StreamOn)
    else if k == "streamoff" then Some(StreamOff)
    else None
  }

  lemma NoSpaceInNumber(n: int32)
    ensures ' ' !in IntToString(n)
  {
    IntToStringChars(n, ' ');
  }

  predicate NoSpaces(words: seq<string>)
  {
    forall i :: 0 <= i < |words| ==> ' ' !in words[i]
  }

  lemma RcWordsHaveNoSpace(x: int32, y: int32, z: int32, yaw: int32)
    ensures NoSpaces(["rc", IntToString(x), IntToString(y), IntToString(z), IntToString(yaw)])
  {
    NoSpaceInNumber(x); NoSpaceInNumber(y); NoSpaceInNumber(z); NoSpaceInNumber(yaw);
    FiveWords("rc", IntToString(x), IntToString(y), IntToString(z), IntToString(yaw));
  }

  lemma FiveWords(k: string, a: string, b: string, c: string, d: string)
    requires ' ' !in k && ' ' !in a && ' ' !in b && ' ' !in c && ' ' !in d
    ensures NoSpaces([k, a, b, c, d])
  {
  }

  /** A keyword and a printed number have no spaces. */
  lemma KeywordAndNumber(keyword: string, a: string)
    requires ' ' !in keyword && ' ' !in a
    ensures NoSpaces([keyword, a])
  {
  }

  /**
   * Every command the client can send is read back as itself, except a rotation by
   * `Int.MIN_VALUE`, whose negation wraps around (see `RotateMinValue`).
   */
  lemma ReadCommandText(c: Command)
    requires c != Rotate(INT32_MIN as int32)
    ensures ReadCommand(CommandText(c)) == Some(c)
  {
    ReadWordsOf(c);
  }

  lemma ReadWordsOf(c: Command)
    requires c != Rotate(INT32_MIN as int32)
    ensures ReadWords(Words(c)) == Some(c)
  {
    match c {
      case Speed(v) => ReadNumberWords("speed", v);
      case Rc(x, y, z, yaw) => ReadRcWords(x, y, z, yaw);
      case Rotate(angle) => ReadRotateWords(angle);
      case _ => ReadKeywordWords(c);
    }
  }

  lemma ReadRotateWords(angle: int32)
    requires angle != INT32_MIN as int32
    ensures ReadWords(Words(Rotate(angle))) == Some(Rotate(angle))
  {
    if angle > 0 {
      ReadNumberWords("cw", angle);
    } else {
      ReadNumberWords("ccw", Negate32(angle));
    }
  }

  lemma ReadKeywordWords(c: Command)
    requires !(c.Speed? || c.Rc? || c.Rotate?)
    ensures ReadWords(Words(c)) == Some(c)
  {
  }

  lemma ReadNumberWords(keyword: string, n: int32)
    ensures ReadWords([keyword, IntToString(n)]) ==
      if keyword == "speed" then Some(Speed(n))
      else if keyword == "cw" && n > 0 then Some(Rotate(n))
      else if keyword == "ccw" && n >= 0 then Some(Rotate(Negate32(n)))
      else None
  {
    ParseIntToString(n);
  }

  lemma ReadRcWords(x: int32, y: int32, z: int32, yaw: int32)
    ensures ReadWords(["rc", IntToString(x), IntToString(y), IntToString(z), IntToString(yaw)]) == Some(Rc(x, y, z, yaw))
  {
    ParseIntToString(x); ParseIntToString(y); ParseIntToString(z); ParseIntToString(yaw);
    ReadRcArgs(IntToString(x), IntToString(y), IntToString(z), IntToString(yaw), x, y, z, yaw);
  }

  lemma ReadRcArgs(a: string, b: string, c: string, d: string, x: int32, y: int32, z: int32, yaw: int32)
    requires ParseInt(a) == Some(x) && ParseInt(b) == Some(y) && ParseInt(c) == Some(z) && ParseInt(d) == Some(yaw)
    ensures ReadWords(["rc", a, b, c, d]) == Some(Rc(x, y, z, yaw))
  {
  }

  /** `rotate(0)` sends `ccw 0`. */
  lemma RotateZero()
    ensures CommandText(Rotate(0)) == "ccw 0"
  {
    assert IntToString(0) == "0";
  }

  /** Within the documented range of +-3600 the magnitude is the absolute angle. */
  lemma RotateDirection(angle: int32)
    requires angle as int != INT32_MIN
    ensures Split(CommandText(Rotate(angle)), ' ')[0] == if angle > 0 then "cw" else "ccw"
    ensures ParseInt(Split(CommandText(Rotate(angle)), ' ')[1])
         == Some(if angle > 0 then angle else -angle)
  {
    var n := if angle > 0 then angle else Negate32(angle);
    assert n as int == if angle > 0 then angle as int else -(angle as int);
    assert Words(Rotate(angle)) == [if angle > 0 then "cw" else "ccw", IntToString(n)];
    ParseIntToString(n);
  }

  /** `rotate(Int.MIN_VALUE)` negates to itself and sends a negative counter-clockwise magnitude. */
  lemma RotateMinValue()
    ensures Words(Rotate(INT32_MIN as int32)) == ["ccw", IntToString(INT32_MIN as int32)]
    ensures ReadCommand(CommandText(Rotate(INT32_MIN as int32))) == None
  {
    ParseIntToString(INT32_MIN as int32);
  }

  // ---------------------------------------------------------------- reply classification

  datatype SocketAddress = SocketAddress(host: string, port: int)

  /** A received datagram, its payload already decoded to text. */
  datatype Datagram = Datagram(address: SocketAddress, text: string)

  /** A datagram from the command peer that reads as a success. */
  predicate IsOk(cmdAddr: SocketAddress, d: Datagram)
  {
    d.address == cmdAddr && StartsWith(d.text, "ok")
  }

  /** A datagram from the command peer that ends the wait: `ok...` or `error...`. */
  predicate Decides(cmdAddr: SocketAddress, d: Datagram)
  {
    d.address == cmdAddr && (StartsWith(d.text, "ok") || StartsWith(d.text, "error"))
  }

  /**
   * The answer among the datagrams received: the first one that decides, `true` for `ok`,
   * `false` for `error`; `None` if none of them decides.
   */
  function FirstReply(cmdAddr: SocketAddress, received: seq<Datagram>): Option<bool>
    decreases |received|
  {
    if received == [] then None
    else if IsOk(cmdAddr, received[0]) then Some(true)
    else if Decides(cmdAddr, received[0]) then Some(false)
    else FirstReply(cmdAddr, received[1..])
  }

  /** Datagram `i` is the first that decides. */
  predicate FirstDecidingAt(cmdAddr: SocketAddress, received: seq<Datagram>, i: int)
  {
    0 <= i < |received| && Decides(cmdAddr, received[i])
    && forall j :: 0 <= j < i ==> !Decides(cmdAddr, received[j])
  }

  /** The answer is `b` exactly when the first deciding datagram is there and is `ok` iff `b`. */
  lemma {:induction false} FirstReplyIsFirstDeciding(cmdAddr: SocketAddress, received: seq<Datagram>, b: bool)
    ensures FirstReply(cmdAddr, received) == Some(b)
        <==> exists i :: FirstDecidingAt(cmdAddr, received, i) && IsOk(cmdAddr, received[i]) == b
    decreases |received|
  {
    if received != [] {
      var tail := received[1..];
      if Decides(cmdAddr, received[0]) {
        assert FirstDecidingAt(cmdAddr, received, 0);
        forall i | FirstDecidingAt(cmdAddr, received, i) ensures i == 0 { }
      } else {
        FirstReplyIsFirstDeciding(cmdAddr, tail, b);
        forall i | FirstDecidingAt(cmdAddr, tail, i)
          ensures FirstDecidingAt(cmdAddr, received, i + 1)
        {
          forall j | 0 <= j < i + 1 ensures !Decides(cmdAddr, received[j]) {
            if j > 0 { assert received[j] == tail[j - 1]; }
          }
        }
        forall i | FirstDecidingAt(cmdAddr, received, i)
          ensures i > 0 && FirstDecidingAt(cmdAddr, tail, i - 1)
        {
          forall j | 0 <= j < i - 1 ensures !Decides(cmdAddr, tail[j]) {
            assert tail[j] == received[j + 1];
          }
        }
        if FirstReply(cmdAddr, received) == Some(b) {
          var i :| FirstDecidingAt(cmdAddr, tail, i) && IsOk(cmdAddr, tail[i]) == b;
          assert received[i + 1] == tail[i];
        }
        if exists i :: FirstDecidingAt(cmdAddr, received, i) && IsOk(cmdAddr, received[i]) == b {
          var i :| FirstDecidingAt(cmdAddr, received, i) && IsOk(cmdAddr, received[i]) == b;
          assert tail[i - 1] == received[i];
        }
      }
    }
  }

  /** There is no answer exactly when no datagram decides. */
  lemma {:induction false} NoReplyWithoutDeciding(cmdAddr: SocketAddress, received: seq<Datagram>)
    ensures FirstReply(cmdAddr, received).None?
        <==> forall i :: 0 <= i < |received| ==> !Decides(cmdAddr, received[i])
    decreases |received|
  {
    if received != [] && !Decides(cmdAddr, received[0]) {
      var tail := received[1..];
      NoReplyWithoutDeciding(cmdAddr, tail);
      assert forall i :: 1 <= i < |received| ==> received[i] == tail[i - 1];
    }
  }

  /** How a `sendCmd` call ends. */
  datatype Outcome =
    | Replied(success: bool)  // the call returns a Boolean
    | TimedOut                // `withTimeout` throws

  /**
   * `sendCmd`: sends `data` to the command peer, then reads the datagrams received until one
   * decides. `closed` says whether the socket closes after `received` (the loop then returns
   * `false`) or the time budget runs out (the call times out).
   */
  method SendCmd(cmdAddr: SocketAddress, data: string, received: seq<Datagram>, closed: bool)
    returns (request: Datagram, outcome: Outcome)
    ensures request == Datagram(cmdAddr, data)
    ensures outcome == match FirstReply(cmdAddr, received)
                       case Some(b) => Replied(b)
                       case None => if closed then Replied(false) else TimedOut
  {
    request := Datagram(cmdAddr, data);
    var i := 0;
    while i < |received|
      invariant 0 <= i <= |received|
      invariant FirstReply(cmdAddr, received) == FirstReply(cmdAddr, received[i..])
    {
      var datagram := received[i];
      assert received[i..][1..] == received[i + 1..];
      i := i + 1;
      if datagram.address == cmdAddr {
        if StartsWith(datagram.text, "ok") {
          return request, Replied(true);
        } else if StartsWith(datagram.text, "error") {
          return request, Replied(false);
        }
      }
    }
    outcome := if closed then Replied(false) else TimedOut;
  }

  /** Datagrams after the deciding one are never read and cannot change the answer. */
  lemma {:induction false} LaterDatagramsIgnored(cmdAddr: SocketAddress, received: seq<Datagram>, later: seq<Datagram>)
    requires FirstReply(cmdAddr, received).Some?
    ensures FirstReply(cmdAddr, received + later) == FirstReply(cmdAddr, received)
    decreases |received|
  {
    var d := received[0];
    if !Decides(cmdAddr, d) {
      assert (received + later)[1..] == received[1..] + later;
      LaterDatagramsIgnored(cmdAddr, received[1..], later);
    }
  }

  /**
   * The reply scenarios of a `land` command: `ok` from the peer succeeds, `error no reason`
   * fails, another sender's datagram before the reply is skipped, and silence times out.
   */
  lemma ReplyScenarios(cmdAddr: SocketAddress, other: SocketAddress, note: string)
    requires other != cmdAddr
    ensures FirstReply(cmdAddr, [Datagram(cmdAddr, "ok")]) == Some(true)
    ensures FirstReply(cmdAddr, [Datagram(cmdAddr, "error" + note)]) == Some(false)
    ensures FirstReply(cmdAddr, [Datagram(other, "error"), Datagram(cmdAddr, "ok")]) == Some(true)
    ensures FirstReply(cmdAddr, [Datagram(cmdAddr, "battery?"), Datagram(cmdAddr, "error")]) == Some(false)
    ensures FirstReply(cmdAddr, []) == None
  {
    assert StartsWith("error" + note, "error") by { assert ("error" + note)[..5] == "error"; }
    assert !StartsWith("error" + note, "ok") by { assert ("error" + note)[0] == 'e'; }
    assert !StartsWith("battery?", "ok") && !StartsWith("battery?", "error") by {
      assert "battery?"[0] == 'b';
    }
    assert [Datagram(other, "error"), Datagram(cmdAddr, "ok")][1..] == [Datagram(cmdAddr, "ok")];
    assert [Datagram(cmdAddr, "battery?"), Datagram(cmdAddr, "error")][1..] == [Datagram(cmdAddr, "error")];
  }

  // ---------------------------------------------------------------- Short.reverseBytes

  /** The low byte of a `Short`'s two's-complement pattern, 0..255. */
  function LowByte(x: int16): int { (x as int) % 0x100 }

  /** The high byte of a `Short`'s two's-complement pattern, 0..255. */
  function HighByte(x: int16): int { ((x as int) / 0x100) % 0x100 }

  lemma DivMod256(a: int, q: int, m: int)
    requires a == q * 0x100 + m && 0 <= m < 0x100
    ensures a / 0x100 == q && a % 0x100 == m
  {
  }

  /**
   * `Short.reverseBytes()`: widen to `Int` (sign extension), take bits 0..7 and 8..15 with
   * `ushr` and `and 0xFF`, recombine them swapped (`or` of disjoint bits is a sum) and narrow
   * with `toShort()`. The two bytes change places.
   */
  function ReverseBytes(x: int16): (r: int16)
    ensures LowByte(r) == HighByte(x)
    ensures HighByte(r) == LowByte(x)
  {
    var bits := if x < 0 then x as int + 0x1_0000_0000 else x as int;  // the Int's 32 bits, as ushr reads them
    var v0 := bits % 0x100;
    var v1 := (bits / 0x100) % 0x100;
    var n := v1 % 0x100 + v0 * 0x100;
    var r := (if n < 0x8000 then n else n - 0x1_0000) as int16;
    assert v0 == LowByte(x) && v1 == HighByte(x) by {
      var q := (x as int) / 0x100;
      DivMod256(x as int, q, LowByte(x));
      var c := if x < 0 then 0x100_0000 else 0;
      DivMod256(bits, q + c, LowByte(x));
      DivMod256(q + c, (q + c) / 0x100, (q + c) % 0x100);
      DivMod256(q, (q + c) / 0x100 - c / 0x100, (q + c) % 0x100);
    }
    assert LowByte(r) == v1 && HighByte(r) == v0 by {
      var hi := if n < 0x8000 then v0 else v0 - 0x100;
      DivMod256(r as int, hi, v1);
      DivMod256(hi, if n < 0x8000 then 0 else -1, v0);
    }
    r
  }

  /** A `Short` is determined by its two bytes. */
  lemma SameBytes(x: int16, y: int16)
    requires LowByte(x) == LowByte(y) && HighByte(x) == HighByte(y)
    ensures x == y
  {
  }

  /** Swapping twice gives the original value back. */
  lemma ReverseBytesTwice(x: int16)
    ensures ReverseBytes(ReverseBytes(x)) == x
  {
    SameBytes(ReverseBytes(ReverseBytes(x)), x);
  }
}
