/** SLIP framing as kflash.py writes and reads it (RFC 1055, PROTOCOL). */
module Slip {
  import opened Bytes
  import opened Options

  const END: byte := 0xC0
  const ESC: byte := 0xDB
  const ESC_END: byte := 0xDC
  const ESC_ESC: byte := 0xDD

  // ------------------------------------------------------------------- writing

  /** `s.replace(c, sub)` for a single character. */
  function Replace(s: seq<byte>, c: byte, sub: seq<byte>): seq<byte> {
    if s == [] then []
    else Replace(s[..|s| - 1], c, sub) + if s[|s| - 1] == c then sub else [s[|s| - 1]]
  }

  function EscapeByte(b: byte): seq<byte> {
    if b == END then [ESC, ESC_END] else if b == ESC then [ESC, ESC_ESC] else [b]
  }

  /** Escaping in one pass. */
  function Escape(s: seq<byte>): seq<byte> {
    if s == [] then [] else Escape(s[..|s| - 1]) + EscapeByte(s[|s| - 1])
  }

  /** `write`: the escape character is replaced first, then the end character. */
  function Written(packet: seq<byte>): seq<byte> {
    [END] + Replace(Replace(packet, ESC, [ESC, ESC_ESC]), END, [ESC, ESC_END]) + [END]
  }

  function WrittenAll(packets: seq<seq<byte>>): seq<byte> {
    if packets == [] then [] else WrittenAll(packets[..|packets| - 1]) + Written(packets[|packets| - 1])
  }

  lemma {:induction false} ReplaceConcat(a: seq<byte>, b: seq<byte>, c: byte, sub: seq<byte>)
    ensures Replace(a + b, c, sub) == Replace(a, c, sub) + Replace(b, c, sub)
    decreases |b|
  {
    if b == [] {
      assert a + b == a;
    } else {
      assert (a + b)[..|a + b| - 1] == a + b[..|b| - 1];
      ReplaceConcat(a, b[..|b| - 1], c, sub);
    }
  }

  lemma ReplaceShort(a: byte, b: byte)
    requires a != END && b != END
    ensures Replace([a], END, [ESC, ESC_END]) == [a]
    ensures Replace([a, b], END, [ESC, ESC_END]) == [a, b]
  {
    assert [a][..0] == [] && [a, b][..1] == [a];
  }

  lemma ReplaceEnd()
    ensures Replace([END], END, [ESC, ESC_END]) == [ESC, ESC_END]
  {
    assert [END][..0] == [];
  }

  /** The two replacements one after the other escape each byte once. */
  lemma {:induction false} TwoReplacementsEscape(packet: seq<byte>)
    ensures Replace(Replace(packet, ESC, [ESC, ESC_ESC]), END, [ESC, ESC_END]) == Escape(packet)
    decreases |packet|
  {
    if packet != [] {
      var init, b := packet[..|packet| - 1], packet[|packet| - 1];
      TwoReplacementsEscape(init);
      ReplaceConcat(Replace(init, ESC, [ESC, ESC_ESC]), if b == ESC then [ESC, ESC_ESC] else [b], END, [ESC, ESC_END]);
      ReplaceEnd();
      if b != END {
        ReplaceShort(b, ESC_ESC);
      }
    }
  }

  // ------------------------------------------------------------------- reading

  /** Between packets, in a packet, or stopped by an invalid character. */
  datatype Place = Outside | Inside(partial: seq<byte>, escape: bool) | Failed

  datatype Reading = Reading(place: Place, packets: seq<seq<byte>>)

  const START := Reading(Outside, [])

  function Step(r: Reading, b: byte): Reading {
    match r.place
    case Failed => r
    case Outside => r.(place := if b == END then Inside([], false) else Failed)
    case Inside(p, escape) =>
      if escape then
        r.(place := if b == ESC_END then Inside(p + [END], false)
                    else if b == ESC_ESC then Inside(p + [ESC], false) else Failed)
      else if b == ESC then r.(place := Inside(p, true))
      else if b == END then Reading(Outside, r.packets + [p])
      else r.(place := Inside(p + [b], false))
  }

  function Run(stream: seq<byte>): Reading {
    if stream == [] then START else Step(Run(stream[..|stream| - 1]), stream[|stream| - 1])
  }

  /** A packet as far as it has been read. */
  function Begun(p: seq<byte>, escape: bool): seq<byte> {
    [END] + Escape(p) + if escape then [ESC] else []
  }

  /** What must have been on the line for the reader to be where it is. */
  function Explained(r: Reading): seq<byte>
    requires !r.place.Failed?
  {
    WrittenAll(r.packets) + match r.place
                            case Outside => []
                            case Inside(p, escape) => Begun(p, escape)
  }

  lemma EscapeSnoc(p: seq<byte>, b: byte)
    ensures Escape(p + [b]) == Escape(p) + EscapeByte(b)
  {
    assert (p + [b])[..|p|] == p;
  }

  lemma WrittenSnoc(packets: seq<seq<byte>>, p: seq<byte>)
    ensures WrittenAll(packets + [p]) == WrittenAll(packets) + (Begun(p, false) + [END])
  {
    assert (packets + [p])[..|packets|] == packets;
    TwoReplacementsEscape(p);
    assert [END] + Escape(p) + [] == [END] + Escape(p);
  }

  /** One more character of a packet. */
  lemma BegunSnoc(p: seq<byte>, b: byte)
    ensures Begun(p, false) + [ESC] == Begun(p, true)
    ensures Begun(p, true) + [ESC_END] == Begun(p + [END], false)
    ensures Begun(p, true) + [ESC_ESC] == Begun(p + [ESC], false)
    ensures b != END && b != ESC ==> Begun(p, false) + [b] == Begun(p + [b], false)
  {
    hide Escape;
    EscapeSnoc(p, b);
    EscapeSnoc(p, END);
    EscapeSnoc(p, ESC);
    assert [ESC] + [ESC_END] == [ESC, ESC_END] && [ESC] + [ESC_ESC] == [ESC, ESC_ESC];
  }

  lemma ExplainedStep(r: Reading, b: byte)
    requires !r.place.Failed? && !Step(r, b).place.Failed?
    ensures Explained(Step(r, b)) == Explained(r) + [b]
  {
    hide Begun, WrittenAll;
    var base := WrittenAll(r.packets);
    if r.place.Inside? {
      var p, escape := r.place.partial, r.place.escape;
      BegunSnoc(p, b);
      WrittenSnoc(r.packets, p);
      assert base + Begun(p, escape) + [b] == base + (Begun(p, escape) + [b]);
    } else {
      NothingBegun();
      assert base + [] + [b] == base + [b];
    }
  }

  lemma NothingBegun()
    ensures Begun([], false) == [END]
  {
  }

  lemma NothingExplained()
    ensures Explained(START) == []
  {
  }

  lemma StaysFailed(r: Reading, b: byte)
    ensures r.place.Failed? ==> Step(r, b) == r
  {
  }

  /** A reader that has not failed can tell exactly what it has read. */
  lemma {:induction false} RunExplained(stream: seq<byte>)
    requires !Run(stream).place.Failed?
    ensures Explained(Run(stream)) == stream
    decreases |stream|
  {
    hide Explained, Step;
    NothingExplained();
    if stream != [] {
      StaysFailed(Run(stream[..|stream| - 1]), stream[|stream| - 1]);
      RunExplained(stream[..|stream| - 1]);
      ExplainedStep(Run(stream[..|stream| - 1]), stream[|stream| - 1]);
    }
  }

  lemma RunSnoc(stream: seq<byte>, b: byte)
    ensures Run(stream + [b]) == Step(Run(stream), b)
  {
    assert (stream + [b])[..|stream|] == stream;
  }

  /** A reader in a packet takes in one escaped byte. */
  lemma RunByte(stream: seq<byte>, packets: seq<seq<byte>>, p: seq<byte>, b: byte)
    requires Run(stream) == Reading(Inside(p, false), packets)
    ensures Run(stream + EscapeByte(b)) == Reading(Inside(p + [b], false), packets)
  {
    hide Run;
    var e := EscapeByte(b);
    RunSnoc(stream, e[0]);
    if |e| == 1 {
      assert e == [e[0]];
    } else {
      RunSnoc(stream + [e[0]], e[1]);
      assert stream + e == stream + [e[0]] + [e[1]];
    }
  }

  lemma {:induction false} RunEscaped(stream: seq<byte>, packets: seq<seq<byte>>, p: seq<byte>)
    requires Run(stream) == Reading(Inside([], false), packets)
    ensures Run(stream + Escape(p)) == Reading(Inside(p, false), packets)
    decreases |p|
  {
    hide Run, EscapeByte;
    if p == [] {
      assert stream + [] == stream;
    } else {
      var init, b := p[..|p| - 1], p[|p| - 1];
      RunEscaped(stream, packets, init);
      RunByte(stream + Escape(init), packets, init, b);
      assert stream + Escape(init) + EscapeByte(b) == stream + Escape(p);
      assert init + [b] == p;
    }
  }

  lemma RunPacket(stream: seq<byte>, packets: seq<seq<byte>>, p: seq<byte>)
    requires Run(stream) == Reading(Outside, packets)
    ensures Run(stream + (Begun(p, false) + [END])) == Reading(Outside, packets + [p])
  {
    hide Run, Escape;
    RunSnoc(stream, END);
    RunEscaped(stream + [END], packets, p);
    RunSnoc(stream + [END] + Escape(p), END);
    assert stream + [END] + Escape(p) + [END] == stream + (Begun(p, false) + [END]);
  }

  /** RFC 1055: END is 0xC0, ESC 0xDB, and what stands for them in a packet DB DC and DB DD. */
  lemma OnTheLine()
    ensures Written([0xC0, 0xDB, 0x01]) == [0xC0, 0xDB, 0xDC, 0xDB, 0xDD, 0x01, 0xC0]
  {
    var p: seq<byte> := [0xC0, 0xDB, 0x01];
    TwoReplacementsEscape(p);
    assert p[..2] == [0xC0, 0xDB] && p[..2][..1] == [0xC0] && p[..2][..1][..0] == [];
    assert Escape([]) == [] && Escape([0xC0]) == [] + [0xDB, 0xDC];
    assert Escape([0xC0, 0xDB]) == [0xDB, 0xDC] + [0xDB, 0xDD];
  }

  /** Every list of packets comes back as it was written. */
  lemma {:induction false} RoundTrip(packets: seq<seq<byte>>)
    ensures Run(WrittenAll(packets)) == Reading(Outside, packets)
    decreases |packets|
  {
    if packets != [] {
      hide Run, Begun, Written, WrittenAll;
      var init, p := packets[..|packets| - 1], packets[|packets| - 1];
      assert packets == init + [p];
      RoundTrip(init);
      RunPacket(WrittenAll(init), init, p);
      WrittenSnoc(init, p);
    }
  }

  /** The reader accepts exactly what the writer writes. */
  lemma AcceptsExactly(stream: seq<byte>, packets: seq<seq<byte>>)
    ensures Run(stream) == Reading(Outside, packets) <==> stream == WrittenAll(packets)
  {
    RoundTrip(packets);
    if Run(stream) == Reading(Outside, packets) {
      RunExplained(stream);
    }
  }

  lemma {:induction false} PacketsGrow(a: seq<byte>, b: seq<byte>)
    ensures Run(a).packets <= Run(a + b).packets
    decreases |b|
  {
    if b == [] {
      assert a + b == a;
    } else {
      assert a + b == (a + b[..|b| - 1]) + [b[|b| - 1]];
      RunSnoc(a + b[..|b| - 1], b[|b| - 1]);
      PacketsGrow(a, b[..|b| - 1]);
    }
  }

  datatype Answer = Packet(data: seq<byte>) | TimedOut | Invalid

  function Flatten(chunks: seq<seq<byte>>): seq<byte> {
    if chunks == [] then [] else chunks[0] + Flatten(chunks[1..])
  }

  /** The generator `slip_reader`: each call of `Next` runs it up to its next `yield` or exception. */
  class SlipReader {
    /** What the port will still return, one element for each `read` that is not empty. */
    var chunks: seq<seq<byte>>
    /** The rest of the last `read`. */
    var pending: seq<byte>
    var partialPacket: Option<seq<byte>>
    var inEscape: bool
    ghost var line: seq<byte>
    ghost var done: nat
    ghost var yielded: nat

    /** The reader is where `Run` is after the characters taken so far. */
    ghost predicate Valid()
      reads this
    {
      && done <= |line| && line[done..] == pending + Flatten(chunks)
      && (forall i :: 0 <= i < |chunks| ==> chunks[i] != [])
      && Run(line[..done]).place == Place()
      && |Run(line[..done]).packets| == yielded
      && (partialPacket.None? ==> !inEscape)
    }

    constructor (chunks: seq<seq<byte>>)
      requires forall i :: 0 <= i < |chunks| ==> chunks[i] != []
      ensures Valid() && line == Flatten(chunks) && yielded == 0
    {
      this.chunks, pending, partialPacket, inEscape := chunks, [], None, false;
      line, done, yielded := Flatten(chunks), 0, 0;
      new;
      assert line[..0] == [] && line[0..] == [] + Flatten(chunks);
    }

    /** The next character, if the port has one. */
    method ReadByte() returns (ok: bool, b: byte)
      requires Valid()
      modifies `chunks, `pending
      ensures unchanged(`line, `done, `yielded, `partialPacket, `inEscape)
      ensures ok <==> done < |line|
      ensures ok ==> b == line[done] && line[done + 1..] == pending + Flatten(chunks)
      ensures !ok ==> unchanged(this)
      ensures forall i :: 0 <= i < |chunks| ==> chunks[i] != []
    {
      hide Run, Step, Flatten;
      b := 0;
      if pending == [] {
        Refill(chunks);
        if chunks == [] {
          return false, b;
        }
        pending, chunks := chunks[0], chunks[1..];
      }
      FirstOf(line, done, pending, Flatten(chunks));
      ok, b, pending := true, pending[0], pending[1..];
    }

    static lemma Refill(chunks: seq<seq<byte>>)
      ensures [] + Flatten(chunks) == if chunks == [] then [] else chunks[0] + Flatten(chunks[1..])
    {
    }

    static lemma FirstOf(line: seq<byte>, done: nat, pending: seq<byte>, more: seq<byte>)
      requires done <= |line| && pending != [] && line[done..] == pending + more
      ensures done < |line| && line[done] == pending[0] && line[done + 1..] == pending[1..] + more
    {
      assert line[done] == line[done..][0] && line[done + 1..] == line[done..][1..];
    }

    function Place(): Place
      reads `partialPacket, `inEscape
    {
      if partialPacket.None? then Outside else Inside(partialPacket.value, inEscape)
    }

    /** What one character does to the packet at hand. */
    method Take(b: byte) returns (a: Option<Answer>)
      requires partialPacket.None? ==> !inEscape
      modifies `partialPacket, `inEscape
      ensures partialPacket.None? ==> !inEscape || a == Some(Invalid)
      ensures var r := Step(Reading(old(Place()), []), b);
        match a
        case None => r == Reading(Place(), [])
        case Some(Packet(p)) => r == Reading(Place(), [p])
        case Some(_) => a.value.Invalid? && r == Reading(Failed, [])
    {
      a := None;
      if partialPacket.None? {
        if b == END {
          partialPacket := Some([]);
        } else {
          a := Some(Invalid);
        }
      } else if inEscape {
        inEscape := false;
        if b == ESC_END {
          partialPacket := Some(partialPacket.value + [END]);
        } else if b == ESC_ESC {
          partialPacket := Some(partialPacket.value + [ESC]);
        } else {
          a := Some(Invalid);
        }
      } else if b == ESC {
        inEscape := true;
      } else if b == END {
        a := Some(Packet(partialPacket.value));
        partialPacket := None;
      } else {
        partialPacket := Some(partialPacket.value + [b]);
      }
    }

    /** The packets on the line come out one by one, however the port cuts up what it returns; an exception is raised
        only when there is no further packet. */
    method Next() returns (a: Answer)
      requires Valid()
      modifies this
      ensures line == old(line)
      ensures a.Packet? ==> Valid() && yielded == old(yielded) + 1
      ensures a.Packet? <==> old(yielded) < |Run(line).packets|
      ensures a.Packet? ==> a.data == Run(line).packets[old(yielded)]
      ensures !a.Packet? ==> (a.Invalid? <==> Run(line).place.Failed?)
    {
      hide Run, Step;
      while true
        invariant Valid() && line == old(line) && yielded == old(yielded)
        decreases |line| - done
      {
        var ok, b := ReadByte();
        if !ok {
          assert line[..done] == line;
          return TimedOut;
        }
        ghost var r := Run(line[..done]);
        RunSnoc(line[..done], b);
        StepAppends(r, b);
        assert line[..done + 1] == line[..done] + [b];
        done := done + 1;
        PacketsGrow(line[..done], line[done..]);
        assert line[..done] + line[done..] == line;
        var taken := Take(b);
        if taken.Some? {
          if taken.value.Packet? {
            yielded := yielded + 1;
          } else {
            FailedForever(line[..done], line[done..]);
          }
          return taken.value;
        }
      }
    }
  }

  lemma StepAppends(r: Reading, b: byte)
    ensures var s := Step(Reading(r.place, []), b);
      Step(r, b) == Reading(s.place, r.packets + s.packets)
  {
    assert r.packets + [] == r.packets;
  }

  lemma {:induction false} FailedForever(a: seq<byte>, b: seq<byte>)
    requires Run(a).place.Failed?
    ensures Run(a + b) == Run(a)
    decreases |b|
  {
    if b == [] {
      assert a + b == a;
    } else {
      assert a + b == (a + b[..|b| - 1]) + [b[|b| - 1]];
      RunSnoc(a + b[..|b| - 1], b[|b| - 1]);
      FailedForever(a, b[..|b| - 1]);
    }
  }
}
