/** `k_recv` and its helpers as load.c has them, proved to compute the machine of KermitProtocol. */
module KermitReceiver {
  import opened Bytes
  import opened KermitProtocol
  import opened KermitEncoding

  /** What a block of `k_recv` comes to: go on, `packet_error`, or the line falls silent. */
  datatype Read = Good | Bad | Silent

  datatype Outcome = Received(size: nat) | Interrupted | Waiting

  /** What `k_recv` returns, if it does: ^C returns 0, a break packet the length of the file. */
  function Result(m: Machine): Outcome {
    match m.scanner.at
    case Done => Received(m.store.pos)
    case Aborted => Interrupted
    case _ => Waiting
  }

  class Receiver {
    // the line
    const input: seq<byte>
    var next: nat
    var output: seq<byte>
    // RAM from the load address on
    var memory: seq<byte>
    // file-scope variables
    var hisEol: byte
    var hisPadCount: nat
    var hisPadChar: byte
    var hisQuote: byte
    var osDataAddr: nat
    var osDataAddrSaved: nat
    var kDataEscape: bool
    var kDataEscapeSaved: bool
    const sendParms: array<byte>
    var sendPtr: nat
    const ab: array<byte>
    // variables of k_recv
    var kState: byte
    var kStateSaved: byte
    var sum: nat
    var length: int
    var n: nat
    var lastN: int
    /** The machine after the characters read so far. */
    ghost var m: Machine

    constructor (input: seq<byte>)
      ensures this.input == input && next == 0 && output == [] && memory == []
      ensures sendParms.Length == SEND_DATA_SIZE && ab.Length == 24 && fresh(sendParms) && fresh(ab)
      ensures m == INITIAL
    {
      this.input, next, output, memory := input, 0, [], [];
      hisEol, hisPadCount, hisPadChar, hisQuote := END_CHAR, 0, 0, K_ESCAPE;
      osDataAddr, osDataAddrSaved, kDataEscape, kDataEscapeSaved := 0, 0, false, false;
      sendParms := new byte[SEND_DATA_SIZE](_ => 0);
      sendPtr := 0;
      ab := new byte[24](_ => 0);
      kState, kStateSaved, sum, length, n, lastN := 0, 0, 0, 0, 0, -1;
      m := INITIAL;
    }

    ghost predicate Shaped()
      reads `n, `osDataAddr, `osDataAddrSaved, `memory, `sendPtr
    {
      && sendParms.Length == SEND_DATA_SIZE && ab.Length == 24 && sendParms != ab
      && sendPtr < SEND_DATA_SIZE && n < 224
      && osDataAddrSaved <= osDataAddr <= |memory|
    }

    /** `m` has followed the line. */
    ghost predicate Tracked()
      reads this
    {
      next <= |input| && m == Run(INITIAL, input[..next])
    }

    /** The machine's data agree with the variables, in the middle of a packet. */
    ghost predicate Alike()
      requires Shaped()
      reads this, sendParms
    {
      m.store == View() && m.scanner.at != Done && m.scanner.at != Aborted
    }

    ghost function View(): Store
      requires Shaped()
      reads `n, `lastN, `kDataEscape, `kDataEscapeSaved, `osDataAddr, `osDataAddrSaved, `memory, `kState, `kStateSaved
      reads sendParms, `sendPtr, `hisQuote, `hisPadCount, `hisPadChar, `hisEol, `output
    {
      Store(n, lastN, kDataEscape, kDataEscapeSaved, osDataAddr, osDataAddrSaved, memory, kState, kStateSaved,
            sendParms[..sendPtr], hisQuote, hisPadCount, hisPadChar, hisEol, output)
    }

    method GetC() returns (ok: bool, c: byte)
      requires Tracked()
      modifies `next, `m
      ensures Tracked()
      ensures ok <==> old(next) < |input|
      ensures !ok ==> next == old(next) && m == old(m)
      ensures ok ==> next == old(next) + 1 && m == Step(old(m), c)
    {
      ok := next < |input|;
      c := 0;
      if ok {
        c := input[next];
        assert input[..next + 1][..next] == input[..next];
        m := Step(m, c);
        next := next + 1;
      }
    }

    /** A character of a packet; one below SPACE is an error. */
    method PacketChar() returns (r: Read, c: byte)
      requires Tracked() && m.scanner.at !in {Start, End, Done, Aborted}
      modifies `next, `m
      ensures Tracked() && old(next) <= next
      ensures r.Silent? ==> next == |input| && m == old(m)
      ensures r.Bad? ==> m == Machine(IDLE, Apply(old(m.store), Reject))
      ensures r.Good? ==> !Control(c) && m == Step(old(m), c)
    {
      hide Run, Apply;
      var ok: bool;
      ok, c := GetC();
      r := if !ok then Silent else if Control(c) then Bad else Good;
    }

    // --------------------------------------------------------------- data

    method KDataSave()
      requires Shaped()
      modifies `kDataEscapeSaved, `osDataAddrSaved
      ensures Shaped() && View() == old(View()).(escapeSaved := kDataEscape, posSaved := osDataAddr)
    {
      kDataEscapeSaved := kDataEscape;
      osDataAddrSaved := osDataAddr;
    }

    method KDataRestore()
      requires Shaped()
      modifies `kDataEscape, `osDataAddr
      ensures Shaped() && View() == old(View()).(escape := kDataEscapeSaved, pos := osDataAddrSaved)
    {
      kDataEscape := kDataEscapeSaved;
      osDataAddr := osDataAddrSaved;
    }

    method BinDataChar(c: byte)
      requires Shaped()
      modifies `memory, `osDataAddr
      ensures Shaped() && View() == Put(old(View()), c)
    {
      memory := if osDataAddr < |memory| then memory[osDataAddr := c] else memory + [c];
      osDataAddr := osDataAddr + 1;
    }

    method KDataChar(c: byte)
      requires Shaped()
      modifies `memory, `osDataAddr, `kDataEscape
      ensures Shaped() && View() == KData(old(View()), c)
    {
      if kDataEscape {
        BinDataChar(KTrans(c));
        kDataEscape := false;
      } else if c == hisQuote {
        kDataEscape := true;
      } else {
        BinDataChar(c);
      }
    }

    // ------------------------------------------------------------- replies

    /** `chk1` from `ab[1]` up to the terminating NUL. */
    method Chk1(ghost end: nat) returns (check: nat)
      requires ab.Length == 24 && 1 <= end < 24
      requires ab[end] == 0 && forall i :: 1 <= i < end ==> ab[i] != 0
      ensures check == Check1(Sum(ab[1..end]))
    {
      var total, p := 0, 1;
      while ab[p] != 0
        invariant 1 <= p <= end
        invariant total == Sum(ab[1..p])
        decreases end - p
      {
        total := total + ab[p] as int;
        assert ab[1..p + 1] == ab[1..p] + [ab[p]];
        SumSnoc(ab[1..p], ab[p]);
        p := p + 1;
      }
      check := (total + total / 64 % 4) % 64;
    }

    /** `s1_sendpacket`: padding, then `ab` up to the terminating NUL. */
    method S1SendPacket(ghost end: nat)
      requires ab.Length == 24 && end < 24
      requires ab[end] == 0 && forall i :: 0 <= i < end ==> ab[i] != 0
      modifies `output
      ensures output == old(output) + (Fill(hisPadCount, hisPadChar) + ab[..end])
    {
      var count := hisPadCount;
      while count > 0
        invariant 0 <= count <= hisPadCount
        invariant output == old(output) + Fill(hisPadCount - count, hisPadChar)
      {
        output := output + [hisPadChar];
        count := count - 1;
        assert Fill(hisPadCount - count - 1, hisPadChar) + [hisPadChar] == Fill(hisPadCount - count, hisPadChar);
      }
      ghost var padded := output;
      var p := 0;
      while ab[p] != 0
        invariant p <= end
        invariant output == padded + ab[..p]
        decreases end - p
      {
        output := output + [ab[p]];
        p := p + 1;
        assert ab[..p - 1] + [ab[p - 1]] == ab[..p];
      }
    }

    /** Check, end of line and NUL after the `length` characters that the check covers. */
    method Seal(length: nat)
      requires ab.Length == 24 && 3 <= length <= 16 && ab[0] == START_CHAR
      requires forall i :: 1 <= i <= length ==> ab[i] != 0
      modifies ab, `output
      ensures output == old(output) + (Fill(hisPadCount, hisPadChar)
                                       + Sealed(old(ab[1..length + 1]), hisEol))
    {
      hide Check1, Sum;
      ghost var covered := ab[1..length + 1];
      ab[length + 1] := 0;
      assert ab[1..length + 1] == covered;
      var check := Chk1(length + 1);
      CharRange(check);
      ab[length + 1] := ToChar(check);
      ab[length + 2] := hisEol;
      ab[length + 3] := 0;
      assert ab[1..length + 1] == covered;
      assert ab[..length + 2] == [START_CHAR] + covered + [ToChar(Check1(Sum(covered)))];
      S1SendPacket(if hisEol == 0 then length + 2 else length + 3);
    }

    /** The packet of type `t` whose data stand at `ab[4..length + 1]`. */
    method SendFramed(length: nat, t: byte, ghost d: seq<byte>)
      requires Shaped() && !Control(t) && 3 <= length <= 16
      requires ab[4..length + 1] == d && forall i :: 0 <= i < |d| ==> !Control(d[i])
      modifies ab, `output
      ensures Shaped() && View() == old(View()).(out := old(output) + Reply(old(View()), t, d))
    {
      hide Check1, Sum, Sealed, Reply;
      CharRange(n);
      CharRange(length);
      ab[0], ab[1], ab[2], ab[3] := START_CHAR, ToChar(length), ToChar(n), t;
      assert ab[4..length + 1] == d;
      assert ab[1..length + 1] == Covered(n, t, d);
      assert forall i :: 4 <= i < length + 1 ==> ab[i] == d[i - 4];
      Seal(length);
      ReplyIs(old(View()), t, d);
    }

    /** `send_ack` and `send_nack`. */
    method SendReply(t: byte)
      requires Shaped() && !Control(t)
      modifies ab, `output
      ensures Shaped() && View() == old(View()).(out := old(output) + Reply(old(View()), t, []))
    {
      assert ab[4..4] == [];
      SendFramed(3, t, []);
    }

    /** `a_b[++length] = c`, where `c` is the next of the parameters offered. */
    method Append(length: nat, c: byte) returns (longer: nat)
      requires ab.Length == 24 && 3 <= length < 16
      requires ab[4..length + 1] == OFFER[..length - 3] && c == OFFER[length - 3]
      modifies ab
      ensures longer == length + 1 && ab[4..longer + 1] == OFFER[..longer - 3]
    {
      longer := length + 1;
      ab[longer] := c;
      assert ab[4..longer + 1] == OFFER[..length - 3] + [c];
    }

    /** The parameters of a send-initiate packet, one by one until they run out. */
    method Crack(bytes: nat) returns (length: nat)
      requires sendParms.Length == SEND_DATA_SIZE && ab.Length == 24 && sendParms != ab && bytes < SEND_DATA_SIZE
      requires hisEol == END_CHAR && hisPadCount == 0 && hisPadChar == 0 && hisQuote == K_ESCAPE
      modifies ab, `hisEol, `hisPadCount, `hisPadChar, `hisQuote
      ensures 3 <= length <= 16
      ensures length == (if bytes <= 9 then bytes + 3 else 16)
      ensures ab[4..length + 1] == OFFER[..length - 3]
      ensures hisPadCount == if bytes >= 3 then UnChar(sendParms[2]) else 0
      ensures hisPadChar == if bytes >= 4 then KTrans(sendParms[3]) else 0
      ensures hisEol == if bytes >= 5 then UnChar(sendParms[4]) else END_CHAR
      ensures hisQuote == if bytes >= 6 then sendParms[5] else K_ESCAPE
    {
      hide UnChar, KTrans;
      length := 3;
      if bytes == 0 { return; }
      length := Append(length, 126);
      if bytes == 1 { return; }
      length := Append(length, 33);
      if bytes == 2 { return; }
      hisPadCount := UnChar(sendParms[2]);
      length := Append(length, 32);
      if bytes == 3 { return; }
      hisPadChar := KTrans(sendParms[3]);
      length := Append(length, 0x40);
      if bytes == 4 { return; }
      hisEol := UnChar(sendParms[4]);
      length := Append(length, 45);
      if bytes == 5 { return; }
      hisQuote := sendParms[5];
      length := Append(length, '#' as int);
      if bytes == 6 { return; }
      length := Refuse(length, bytes);
    }

    /** The last four parameters: what he says about them does not matter. */
    method Refuse(start: nat, bytes: nat) returns (length: nat)
      requires ab.Length == 24 && start == 9 && 6 < bytes
      requires ab[4..start + 1] == OFFER[..start - 3]
      modifies ab
      ensures length == (if bytes <= 9 then bytes + 3 else 16)
      ensures ab[4..length + 1] == OFFER[..length - 3]
    {
      length := Append(start, 'N' as int);
      if bytes == 7 { return; }
      length := Append(length, '1' as int);
      if bytes == 8 { return; }
      length := Append(length, 'N' as int);
      if bytes == 9 { return; }
      length := Append(length, 34);
      length := Append(length, 32);
      length := Append(length, 126);
      length := Append(length, 126);
    }

    /** The defaults, and what the packet says about them. */
    method Negotiate() returns (length: nat)
      requires Shaped()
      modifies ab, `hisEol, `hisPadCount, `hisPadChar, `hisQuote, `sendPtr
      ensures Shaped() && 3 <= length <= 16
      ensures View().(parms := []) == Negotiated(old(View())).(parms := [])
      ensures ab[4..length + 1] == Offered(old(View()).parms)
    {
      hide KTrans, UnChar;
      ghost var was := View();
      SetDefaults();
      length := Crack(sendPtr);
      CrackedIs(was, View(), sendParms[..sendPtr]);
    }

    method SetDefaults()
      requires Shaped()
      modifies `hisEol, `hisPadCount, `hisPadChar, `hisQuote, `sendPtr
      ensures Shaped() && sendPtr == Looked(old(View()).parms)
      ensures hisEol == END_CHAR && hisPadCount == 0 && hisPadChar == 0 && hisQuote == K_ESCAPE
      ensures sendParms[..sendPtr] <= old(View()).parms
    {
      hisEol, hisPadCount, hisPadChar, hisQuote := END_CHAR, 0, 0, K_ESCAPE;
      if sendPtr == SEND_DATA_SIZE - 1 {
        sendPtr := sendPtr - 1;
      }
    }

    method HandleSendPacket()
      requires Shaped()
      modifies ab, `output, `hisEol, `hisPadCount, `hisPadChar, `hisQuote, `sendPtr
      ensures Shaped() && View().(parms := []) == Apply(old(View()), Accept(SEND_TYPE))
    {
      hide Reply, Apply, Negotiated, Offered;
      ghost var was := View();
      var length := Negotiate();
      OfferPrintable(was.parms);
      AcceptsSend(was, View());
      SendFramed(length, ACK_TYPE, Offered(was.parms));
    }


    // -------------------------------------------------------------- packets

    /** A repeated sequence number rolls back, a new one checkpoints. */
    method TakeSequence(k: nat)
      requires Shaped() && k < 224
      modifies `n, `lastN, `kState, `kStateSaved, `kDataEscape, `kDataEscapeSaved, `osDataAddr, `osDataAddrSaved
      ensures Shaped() && View() == Apply(old(View()), GotSeq(k)) && n == k
    {
      n := k;
      if n == lastN {
        kState := kStateSaved;
        KDataRestore();
      } else {
        lastN := n;
        kStateSaved := kState;
        KDataSave();
      }
    }

    method ReadLength() returns (r: Read)
      requires Shaped() && Tracked() && m == Machine(IDLE.(at := Len), View())
      modifies `next, `m, `sum, `length
      ensures Shaped() && Tracked() && old(next) <= next
      ensures r.Silent? ==> next == |input| && Alike()
      ensures r.Bad? ==> m == Machine(IDLE, Apply(View(), Reject))
      ensures r.Good? ==> m == Machine(Scanner(Seq, sum, length, 0, 0), View())
    {
      hide Run, Apply, Step, Scan;
      var c: byte;
      sum := 0;
      r, c := PacketChar();
      if !r.Good? { return; }
      StepLen(View(), c);
      sum := sum + c;
      length := UnChar(c);
    }

    /** The sequence number, and the checkpoint or roll-back it calls for. */
    method ReadSequence() returns (r: Read)
      requires Shaped() && Tracked() && m == Machine(Scanner(Seq, sum, length, 0, 0), View())
      modifies `next, `m, `sum, `length, `n, `lastN, `kState, `kStateSaved, `kDataEscape, `kDataEscapeSaved
      modifies `osDataAddr, `osDataAddrSaved
      ensures Shaped() && Tracked() && old(next) <= next
      ensures r.Silent? ==> next == |input| && Alike()
      ensures r.Bad? ==> m == Machine(IDLE, Apply(View(), Reject))
      ensures r.Good? ==> m == Machine(Scanner(Type, sum, length, 0, 0), View())
    {
      hide Run, Apply, Step, Scan;
      var c: byte;
      r, c := PacketChar();
      if !r.Good? { return; }
      StepSeq(sum, length, View(), c);
      sum := sum + c;
      TakeSequence(UnChar(c));
      length := length - 1;
    }

    /** The header of a long packet. */
    method ReadExtended() returns (r: Read, ghost lenHi: nat)
      requires Shaped() && Tracked() && m == Machine(Scanner(LenHi, sum, length, 0, kState), View())
      modifies `next, `m, `sum, `length
      ensures Shaped() && Tracked() && old(next) <= next
      ensures r.Silent? ==> next == |input| && Alike()
      ensures r.Bad? ==> m == Machine(IDLE, Apply(View(), Reject))
      ensures r.Good? ==> m == Machine(Rest(Scanner(HeaderCheck, sum, length, lenHi, kState)), View())
    {
      hide Run, Apply, Step, Scan, Rest, UnChar, ToChar, Check1;
      var c: byte;
      lenHi := 0;
      r, c := PacketChar();
      if !r.Good? { return; }
      StepLenHi(sum, length, kState, View(), c);
      sum := sum + c;
      var high := UnChar(c);
      lenHi := high;
      r, c := PacketChar();
      if !r.Good? { return; }
      StepLenLo(sum, length, high, kState, View(), c);
      sum := sum + c;
      length := high * 95 + UnChar(c);
      r, c := PacketChar();
      if !r.Good? { return; }
      StepHeaderCheck(Scanner(HeaderCheck, sum, length, high, kState), View(), c);
      if c != ToChar(Check1(sum)) {
        r := Bad;
        return;
      }
      sum := sum + c;
    }

    method ReadType() returns (r: Read, ghost lenHi: nat)
      requires Shaped() && Tracked() && m == Machine(Scanner(Type, sum, length, 0, 0), View())
      modifies `next, `m, `sum, `length, `kState
      ensures Shaped() && Tracked() && old(next) <= next
      ensures r.Silent? ==> next == |input| && Alike()
      ensures r.Bad? ==> m == Machine(IDLE, Apply(View(), Reject))
      ensures r.Good? ==> m == Machine(Rest(Scanner(HeaderCheck, sum, length, lenHi, kState)), View())
    {
      hide Run, Apply, Step, Scan;
      var c: byte;
      lenHi := 0;
      r, c := PacketChar();
      if !r.Good? { return; }
      StepType(sum, length, View(), c);
      sum := sum + c;
      kState := c;
      length := length - 1;
      if length == -2 {
        r, lenHi := ReadExtended();
      }
    }

    /** One character of data, for the file or for the parameters. */
    method TakeData(c: byte)
      requires Shaped()
      modifies sendParms, `sendPtr, `memory, `osDataAddr, `kDataEscape
      ensures Shaped() && View() == Apply(old(View()), GotData(c))
    {
      if kState == DATA_TYPE {
        KDataChar(c);
      } else if kState == SEND_TYPE {
        sendParms[sendPtr] := c;
        sendPtr := sendPtr + 1;
        if sendPtr >= SEND_DATA_SIZE {
          sendPtr := sendPtr - 1;
        }
      }
    }

    method ReadDatum(ghost lenHi: nat) returns (r: Read)
      requires Shaped() && Tracked() && length > 1
      requires m == Machine(Rest(Scanner(HeaderCheck, sum, length, lenHi, kState)), View())
      modifies `next, `m, `sum, `length, sendParms, `sendPtr, `memory, `osDataAddr, `kDataEscape
      ensures Shaped() && Tracked() && old(next) <= next
      ensures r.Silent? ==> next == |input| && Alike()
      ensures r.Bad? ==> m == Machine(IDLE, Apply(View(), Reject))
      ensures r.Good? ==> m == Machine(Rest(Scanner(HeaderCheck, sum, length, lenHi, kState)), View())
      ensures r.Good? ==> length == old(length) - 1
    {
      hide Run, Apply, Step, Scan;
      var c: byte;
      r, c := PacketChar();
      if !r.Good? { return; }
      StepData(sum, length, lenHi, kState, View(), c);
      sum := sum + c;
      length := length - 1;
      TakeData(c);
    }

    /** The data, up to the check. */
    method ReadData(ghost lenHi: nat) returns (r: Read)
      requires Shaped() && Tracked() && m == Machine(Rest(Scanner(HeaderCheck, sum, length, lenHi, kState)), View())
      modifies `next, `m, `sum, `length, sendParms, `sendPtr, `memory, `osDataAddr, `kDataEscape
      ensures Shaped() && Tracked() && old(next) <= next
      ensures r.Silent? ==> next == |input| && Alike()
      ensures r.Bad? ==> m == Machine(IDLE, Apply(View(), Reject))
      ensures r.Good? ==> m == Machine(Scanner(BlockCheck, sum, length, lenHi, kState), View())
    {
      hide Run, Apply, Step, Scan;
      r := Good;
      while length > 1
        invariant r.Good? && Shaped() && Tracked() && old(next) <= next
        invariant m == Machine(Rest(Scanner(HeaderCheck, sum, length, lenHi, kState)), View())
      {
        r := ReadDatum(lenHi);
        if !r.Good? { return; }
      }
    }

    /** The block check. */
    method ReadCheck(ghost lenHi: nat) returns (r: Read)
      requires Shaped() && Tracked() && m == Machine(Scanner(BlockCheck, sum, length, lenHi, kState), View())
      modifies `next, `m
      ensures Shaped() && Tracked() && old(next) <= next
      ensures r.Silent? ==> next == |input| && Alike()
      ensures r.Bad? ==> m == Machine(IDLE, Apply(View(), Reject))
      ensures r.Good? ==> m == Machine(Scanner(End, sum, length, lenHi, kState), View())
    {
      hide Run, Apply, Step, Scan;
      var c: byte;
      r, c := PacketChar();
      if !r.Good? { return; }
      StepCheck(Scanner(BlockCheck, sum, length, lenHi, kState), View(), c);
      if c != ToChar(Check1(sum)) {
        r := Bad;
      }
    }

    /** A packet up to its check. */
    method ReadPacket() returns (r: Read, ghost lenHi: nat)
      requires Shaped() && Tracked() && m == Machine(IDLE.(at := Len), View())
      modifies this, sendParms
      ensures Shaped() && Tracked() && old(next) <= next
      ensures r.Silent? ==> next == |input| && Alike()
      ensures r.Bad? ==> m == Machine(IDLE, Apply(View(), Reject))
      ensures r.Good? ==> m == Machine(Scanner(End, sum, length, lenHi, kState), View())
      ensures output == old(output)
    {
      hide Run, Apply, View;
      lenHi := 0;
      r := ReadLength();
      if !r.Good? { return; }
      r := ReadSequence();
      if !r.Good? { return; }
      r, lenHi := ReadType();
      if !r.Good? { return; }
      r := ReadData(lenHi);
      if !r.Good? { return; }
      r := ReadCheck(lenHi);
    }

    /** `packet_error` */
    method PacketError()
      requires Shaped()
      modifies ab, `output, `kState, `kDataEscape, `osDataAddr
      ensures Shaped() && View().(parms := []) == Apply(old(View()), Reject)
    {
      kState := kStateSaved;
      KDataRestore();
      ghost var now := View();
      SendReply(NACK_TYPE);
      Rejects(old(View()), now);
    }

    /** What follows the check: `c` should end the packet. */
    method Answer(c: byte) returns (done: bool)
      requires Shaped()
      modifies this, ab
      ensures next == old(next) && m == old(m)
      ensures done <==> c == END_CHAR && old(kState) == BREAK_TYPE
      ensures Shaped()
           && View().(parms := []) == Apply(old(View()), if c == END_CHAR then Accept(old(kState)) else Reject)
    {
      done := false;
      if c != END_CHAR {
        PacketError();
      } else if kState == SEND_TYPE {
        HandleSendPacket();
      } else {
        SendReply(ACK_TYPE);
        Accepts(old(View()), kState);
        done := kState == BREAK_TYPE;
      }
    }

    /** Outside packets: a packet starts, or ^C comes, or the line stays silent. */
    method AwaitStart() returns (ok: bool, c: byte)
      requires Tracked() && m.scanner == IDLE
      modifies `next, `m
      ensures Tracked() && old(next) <= next
      ensures !ok ==> next == |input| && m == old(m)
      ensures ok ==> old(next) < next && (c == START_CHAR || c == ETX_CHAR)
      ensures ok ==> m == Machine(IDLE.(at := if c == START_CHAR then Len else Aborted), old(m.store))
    {
      hide Run;
      while true
        invariant Tracked() && old(next) <= next && m == old(m)
        decreases |input| - next
      {
        ok, c := GetC();
        if !ok || c == START_CHAR || c == ETX_CHAR { return; }
      }
    }

    /** One packet after its start, and the answer to it. */
    method TakePacket() returns (silent: bool, done: bool)
      requires Shaped() && Tracked() && m == Machine(IDLE.(at := Len), View())
      modifies this, sendParms, ab
      ensures Shaped() && Tracked() && old(next) <= next
      ensures silent ==> next == |input| && Alike()
      ensures !silent ==> m == Machine(if done then IDLE.(at := Done) else IDLE, View().(parms := []))
    {
      hide Run, Apply, Step, Scan, View;
      silent, done := false, false;
      var r, lenHi := ReadPacket();
      if r.Bad? {
        PacketError();
      } else if r.Silent? {
        silent := true;
      } else {
        StepEnds(Scanner(End, sum, length, lenHi, kState), View());
        var ok, c := GetC();
        silent := !ok;
        if ok {
          done := Answer(c);
        }
      }
    }

    method InitialiseProtocol()
      modifies `hisEol, `hisPadCount, `hisPadChar, `hisQuote, `kState, `kStateSaved, `n, `lastN
      ensures hisEol == END_CHAR && hisPadCount == 0 && hisPadChar == 0 && hisQuote == K_ESCAPE
      ensures kState == kStateSaved == 0 && n == 0 && lastN == -1
    {
      hisEol, hisPadCount, hisPadChar, hisQuote := END_CHAR, 0, 0, K_ESCAPE;
      kState, n, lastN := 0, 0, -1;
      kStateSaved := kState;
    }

    /** `k_data_init`, `k_data_save` and the first `send_ptr`. */
    method KDataInit()
      requires memory == [] && output == []
      requires sendParms.Length == SEND_DATA_SIZE && ab.Length == 24 && sendParms != ab
      requires hisEol == END_CHAR && hisPadCount == 0 && hisPadChar == 0 && hisQuote == K_ESCAPE
      requires kState == kStateSaved == 0 && n == 0 && lastN == -1
      modifies `kDataEscape, `kDataEscapeSaved, `osDataAddr, `osDataAddrSaved, `sendPtr
      ensures Shaped() && View() == EMPTY
    {
      kDataEscape, osDataAddr := false, 0;
      kDataEscapeSaved, osDataAddrSaved := kDataEscape, osDataAddr;
      sendPtr := 0;
      assert sendParms[..sendPtr] == [];
    }

    /** `send_ptr = 0`, at the start of every round */
    method ForgetParameters()
      requires Shaped()
      modifies `sendPtr
      ensures Shaped() && View() == old(View()).(parms := []) && View().(parms := []) == View()
    {
      sendPtr := 0;
      assert sendParms[..sendPtr] == [];
    }

    method KRecv() returns (o: Outcome)
      requires next == 0 && output == [] && memory == []
      requires sendParms.Length == SEND_DATA_SIZE && ab.Length == 24 && sendParms != ab
      modifies this, sendParms, ab
      ensures o == Result(Run(INITIAL, input))
      ensures memory == Run(INITIAL, input).store.mem && output == Run(INITIAL, input).store.out
    {
      hide Run, Apply, Step, Scan;
      InitialiseProtocol();
      KDataInit();
      m := INITIAL;
      assert input[..0] == [];
      RunNothing();
      var done := false;
      while !done
        invariant Shaped() && Tracked()
        invariant m == Machine(if done then IDLE.(at := Done) else IDLE, View().(parms := []))
        decreases |input| - next
      {
        ForgetParameters();
        var ok, c := AwaitStart();
        if !ok {
          assert input[..next] == input;
          return Waiting;
        }
        if c == ETX_CHAR {
          Halted(input, next);
          return Interrupted;
        }
        var silent: bool;
        silent, done := TakePacket();
        if silent {
          assert input[..next] == input;
          return Waiting;
        }
      }
      Halted(input, next);
      o := Received(osDataAddr);
    }
  }

  lemma StepLen(r: Store, c: byte)
    requires Valid(r) && !Control(c)
    ensures Step(Machine(IDLE.(at := Len), r), c) == Machine(Scanner(Seq, c, UnChar(c), 0, 0), r)
  {
  }

  lemma StepSeq(sum: nat, length: int, r: Store, c: byte)
    requires Valid(r) && !Control(c)
    ensures Step(Machine(Scanner(Seq, sum, length, 0, 0), r), c)
         == Machine(Scanner(Type, sum + c, length - 1, 0, 0), Apply(r, GotSeq(UnChar(c))))
  {
    hide Apply;
  }

  lemma StepLenHi(sum: nat, length: int, kind: byte, r: Store, c: byte)
    requires Valid(r) && !Control(c)
    ensures Step(Machine(Scanner(LenHi, sum, length, 0, kind), r), c)
         == Machine(Scanner(LenLo, sum + c, length, UnChar(c), kind), r)
  {
  }

  lemma StepLenLo(sum: nat, length: int, lenHi: nat, kind: byte, r: Store, c: byte)
    requires Valid(r) && !Control(c)
    ensures Step(Machine(Scanner(LenLo, sum, length, lenHi, kind), r), c)
         == Machine(Scanner(HeaderCheck, sum + c, lenHi * 95 + UnChar(c), lenHi, kind), r)
  {
  }

  lemma StepHeaderCheck(s: Scanner, r: Store, c: byte)
    requires Valid(r) && !Control(c) && s.at == HeaderCheck
    ensures Step(Machine(s, r), c) == if c == ToChar(Check1(s.sum)) then Machine(Rest(s.(sum := s.sum + c)), r)
                                      else Machine(IDLE, Apply(r, Reject))
  {
    hide Check1, Reply;
  }

  lemma StepType(sum: nat, length: int, r: Store, c: byte)
    requires Valid(r) && !Control(c)
    ensures Step(Machine(Scanner(Type, sum, length, 0, 0), r), c)
         == Machine(if length - 1 == -2 then Scanner(LenHi, sum + c, length - 1, 0, c)
                    else Rest(Scanner(HeaderCheck, sum + c, length - 1, 0, c)), r.(kind := c))
  {
  }

  lemma StepData(sum: nat, length: int, lenHi: nat, kind: byte, r: Store, c: byte)
    requires Valid(r) && !Control(c) && length > 1
    ensures Step(Machine(Rest(Scanner(HeaderCheck, sum, length, lenHi, kind)), r), c)
         == Machine(Rest(Scanner(HeaderCheck, sum + c, length - 1, lenHi, kind)), Apply(r, GotData(c)))
  {
    hide Apply;
  }

  lemma StepCheck(s: Scanner, r: Store, c: byte)
    requires Valid(r) && !Control(c) && s.at == BlockCheck
    ensures Step(Machine(s, r), c) == if c == ToChar(Check1(s.sum)) then Machine(s.(at := End), r)
                                      else Machine(IDLE, Apply(r, Reject))
  {
    hide Check1, Reply;
  }

  lemma StepEnd(s: Scanner, r: Store, c: byte)
    requires Valid(r) && s.at == End
    ensures Step(Machine(s, r), c)
         == Machine(if c == END_CHAR && s.kind == BREAK_TYPE then IDLE.(at := Done) else IDLE,
                    Apply(r, if c == END_CHAR then Accept(s.kind) else Reject))
  {
    hide Apply;
  }

  lemma Rejects(r: Store, s: Store)
    requires Valid(r) && s == Restored(r)
    ensures s.(out := s.out + Reply(s, NACK_TYPE, []), parms := []) == Apply(r, Reject)
  {
    hide Reply;
  }

  lemma Accepts(r: Store, t: byte)
    requires Valid(r) && t != SEND_TYPE
    ensures r.(out := r.out + Reply(r, ACK_TYPE, []), parms := []) == Apply(r, Accept(t))
  {
    hide Reply;
  }

  lemma StepEnds(s: Scanner, r: Store)
    requires Valid(r) && s.at == End
    ensures forall c: byte :: (
      Step(Machine(s, r), c) == Machine(if c == END_CHAR && s.kind == BREAK_TYPE then IDLE.(at := Done) else IDLE,
                                        Apply(r, if c == END_CHAR then Accept(s.kind) else Reject)))
  {
    forall c: byte {
      StepEnd(s, r, c);
    }
  }

  lemma RunNothing()
    ensures Run(INITIAL, []) == INITIAL
  {
  }

  /** Once the receiver has returned, nothing on the line changes the machine. */
  lemma {:induction false} Halted(input: seq<byte>, k: nat)
    requires k <= |input| && Run(INITIAL, input[..k]).scanner.at in {Done, Aborted}
    ensures Run(INITIAL, input) == Run(INITIAL, input[..k])
    decreases |input|
  {
    if k < |input| {
      assert input[..|input| - 1][..k] == input[..k];
      Halted(input[..|input| - 1], k);
    } else {
      assert input[..k] == input;
    }
  }

  /** What `Crack` sets is what the machine negotiates. */
  lemma CrackedIs(r: Store, s: Store, seen: seq<byte>)
    requires |seen| == Looked(r.parms) && seen <= r.parms
    requires s.(parms := []) == r.(padCount := s.padCount, padChar := s.padChar, eol := s.eol, quote := s.quote,
                                   parms := [])
    requires s.padCount == if |seen| >= 3 then UnChar(seen[2]) else 0
    requires s.padChar == if |seen| >= 4 then KTrans(seen[3]) else 0
    requires s.eol == if |seen| >= 5 then UnChar(seen[4]) else END_CHAR
    requires s.quote == if |seen| >= 6 then seen[5] else K_ESCAPE
    ensures s.(parms := []) == Negotiated(r).(parms := [])
  {
    hide UnChar, KTrans;
  }

  lemma OfferPrintable(parms: seq<byte>)
    ensures forall i :: 0 <= i < |Offered(parms)| ==> !Control(Offered(parms)[i])
  {
  }

  lemma AcceptsSend(r: Store, s: Store)
    requires Valid(r) && s.(parms := []) == Negotiated(r).(parms := [])
    ensures s.(out := s.out + Reply(s, ACK_TYPE, Offered(r.parms)), parms := []) == Apply(r, Accept(SEND_TYPE))
  {
    hide Framed, Offered;
  }

  /** A packet with check and end of line around what the check covers. */
  function Sealed(covered: seq<byte>, eol: byte): seq<byte> {
    [START_CHAR] + covered + [ToChar(Check1(Sum(covered)))] + if eol == 0 then [] else [eol]
  }

  lemma ReplyIs(r: Store, t: byte, d: seq<byte>)
    ensures Fill(r.padCount, r.padChar) + Sealed(Covered(r.n, t, d), r.eol) == Reply(r, t, d)
  {
    hide Covered, Check1, Sum;
    assert Fill(r.padCount, r.padChar) + Sealed(Covered(r.n, t, d), r.eol)
        == Fill(r.padCount, r.padChar) + Framed(r.n, t, d) + (if r.eol == 0 then [] else [r.eol]);
  }
}
