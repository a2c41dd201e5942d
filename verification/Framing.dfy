/** Cutting a byte stream into BER messages: `read_ber_message`
    (crates/netsnmp/src/transport.rs) and the reader of the SMUX server
    (crates/netsnmp-agent/src/smux.rs). */
module Framing {
  import opened Values
  import opened Outcomes
  import opened Bytes
  import opened Codecs
  import opened Ber

  /** `CapacityOverflow` stands for the abort on a content buffer that no
      allocation can hold. */
  datatype FrameError = UnexpectedEof | InvalidLength | CapacityOverflow

  /** A message and the stream behind it. */
  type Framed = Outcome<(seq<byte>, seq<byte>), FrameError>

  /** The number of header bytes and the content length they announce. */
  type Announced = Outcome<(nat, nat), FrameError>

  const MaxStreamMessage: nat := 16 * 1024 * 1024

  /** One to four length bytes in the long form. */
  function BerHeader(s: seq<byte>): (r: Announced)
    ensures r.Ok? ==> 2 <= r.value.0 <= |s|
  {
    if |s| < 2 then Err(UnexpectedEof)
    else if s[1] < 128 then Ok((2, s[1]))
    else
      var n := s[1] - 128;
      if n == 0 || n > 4 then Err(InvalidLength)
      else if 2 + n > |s| then Err(UnexpectedEof)
      else Ok((2 + n, FromBe(s[2..2 + n])))
  }

  /** Any number of length bytes, of which the low 64 bits count. */
  function SmuxHeader(s: seq<byte>): (r: Announced)
    ensures r.Ok? ==> 2 <= r.value.0 <= |s|
  {
    if |s| < 2 then Err(UnexpectedEof)
    else if s[1] < 128 then Ok((2, s[1]))
    else
      var n := s[1] - 128;
      if 2 + n > |s| then Err(UnexpectedEof)
      else Ok((2 + n, FoldBytes(s[2..2 + n], 0x1_0000_0000_0000_0000)))
  }

  /** No buffer is larger than half the address space. */
  const MaxCapacity: nat := 0x7FFF_FFFF_FFFF_FFFF

  /** Cut off the header and the content it announces, up to a limit. */
  function Cut(s: seq<byte>, header: Announced, limit: nat, tooLong: FrameError): Framed {
    match header
    case Err(e) => Err(e)
    case Ok((h, len)) =>
      if len > limit then Err(tooLong)
      else if h + len > |s| then Err(UnexpectedEof)
      else Ok((s[..h + len], s[h + len..]))
  }

  function BerFrame(s: seq<byte>): Framed {
    Cut(s, BerHeader(s), MaxStreamMessage, InvalidLength)
  }

  function SmuxFrame(s: seq<byte>): Framed {
    Cut(s, SmuxHeader(s), MaxCapacity, CapacityOverflow)
  }

  /** The reading end of a stream; `rest` is what will still arrive before it
      ends. */
  class Reader {
    var rest: seq<byte>

    constructor (stream: seq<byte>)
      ensures rest == stream
    {
      rest := stream;
    }

    /** `read_exact`: all n bytes, or an error at the end of the stream. */
    method ReadExact(n: nat) returns (r: Outcome<seq<byte>, FrameError>)
      modifies this
      ensures r == if n <= |old(rest)| then Ok(old(rest)[..n]) else Err(UnexpectedEof)
      ensures rest == if n <= |old(rest)| then old(rest)[n..] else []
    {
      if n <= |rest| {
        r := Ok(rest[..n]);
        rest := rest[n..];
      } else {
        rest := [];
        r := Err(UnexpectedEof);
      }
    }

    /** The tag and the first length byte. */
    method ReadTwo() returns (r: Outcome<seq<byte>, FrameError>)
      modifies this
      ensures r == if 2 <= |old(rest)| then Ok(old(rest)[..2]) else Err(UnexpectedEof)
      ensures r.Ok? ==> rest == old(rest)[2..]
    {
      var tag := ReadExact(1);
      if tag.Err? {
        return tag;
      }
      var first := ReadExact(1);
      if first.Err? {
        return first;
      }
      assert tag.value + first.value == old(rest)[..2];
      r := Ok(tag.value + first.value);
    }

    method ReadBerHeader() returns (r: Outcome<(seq<byte>, nat), FrameError>)
      modifies this
      ensures match BerHeader(old(rest))
        case Err(e) => r == Err(e)
        case Ok((h, len)) => r == Ok((old(rest)[..h], len)) && rest == old(rest)[h..]
    {
      var two := ReadTwo();
      if two.Err? {
        return Err(two.error);
      }
      var first := two.value[1];
      if first < 128 {
        return Ok((two.value, first));
      }
      var n := first - 128;
      if n == 0 || n > 4 {
        return Err(InvalidLength);
      }
      var lenbuf := ReadExact(n);
      if lenbuf.Err? {
        return Err(lenbuf.error);
      }
      var len: nat := 0;
      for i := 0 to n
        invariant len == FromBe(lenbuf.value[..i])
      {
        assert lenbuf.value[..i + 1][..i] == lenbuf.value[..i];
        len := 256 * len + lenbuf.value[i];
      }
      assert lenbuf.value[..n] == old(rest)[2..2 + n];
      assert two.value + lenbuf.value == old(rest)[..2 + n];
      r := Ok((two.value + lenbuf.value, len));
    }

    method ReadSmuxHeader() returns (r: Outcome<(seq<byte>, nat), FrameError>)
      modifies this
      ensures match SmuxHeader(old(rest))
        case Err(e) => r == Err(e)
        case Ok((h, len)) => r == Ok((old(rest)[..h], len)) && rest == old(rest)[h..]
    {
      var two := ReadTwo();
      if two.Err? {
        return Err(two.error);
      }
      var first := two.value[1];
      if first < 128 {
        return Ok((two.value, first));
      }
      var n := first - 128;
      var lenbuf := ReadExact(n);
      if lenbuf.Err? {
        return Err(lenbuf.error);
      }
      var len: nat := 0;
      for i := 0 to n
        invariant len == FoldBytes(lenbuf.value[..i], 0x1_0000_0000_0000_0000)
      {
        assert lenbuf.value[..i + 1][..i] == lenbuf.value[..i];
        len := (256 * len + lenbuf.value[i]) % 0x1_0000_0000_0000_0000;
      }
      assert lenbuf.value[..n] == old(rest)[2..2 + n];
      assert two.value + lenbuf.value == old(rest)[..2 + n];
      r := Ok((two.value + lenbuf.value, len));
    }

    /** The message reader of the stream transports. */
    method ReadBerMessage() returns (r: Outcome<seq<byte>, FrameError>)
      modifies this
      ensures match BerFrame(old(rest))
        case Err(e) => r == Err(e)
        case Ok((message, tail)) => r == Ok(message) && rest == tail
    {
      var header := ReadBerHeader();
      if header.Err? {
        return Err(header.error);
      }
      var len := header.value.1;
      if len > MaxStreamMessage {
        return Err(InvalidLength);
      }
      var content := ReadExact(len);
      if content.Err? {
        return content;
      }
      assert header.value.0 + content.value == old(rest)[..|header.value.0| + len];
      r := Ok(header.value.0 + content.value);
    }

    /** The reader of the SMUX server. */
    method ReadSmuxPdu() returns (r: Outcome<seq<byte>, FrameError>)
      modifies this
      ensures match SmuxFrame(old(rest))
        case Err(e) => r == Err(e)
        case Ok((message, tail)) => r == Ok(message) && rest == tail
    {
      var header := ReadSmuxHeader();
      if header.Err? {
        return Err(header.error);
      }
      var len := header.value.1;
      if len > MaxCapacity {
        return Err(CapacityOverflow);
      }
      var content := ReadExact(len);
      if content.Err? {
        return content;
      }
      assert header.value.0 + content.value == old(rest)[..|header.value.0| + len];
      r := Ok(header.value.0 + content.value);
    }

    /** Read n messages one after the other. */
    method ReadMessages(n: nat) returns (r: Outcome<seq<seq<byte>>, FrameError>)
      modifies this
      ensures match FrameMany(old(rest), n)
        case Err(e) => r == Err(e)
        case Ok((messages, tail)) => r == Ok(messages) && rest == tail
    {
      var messages: seq<seq<byte>> := [];
      ghost var all := FrameMany(rest, n);
      assert all.Ok? ==> [] + all.value.0 == all.value.0;
      for i := 0 to n
        invariant FrameMany(old(rest), n) == match FrameMany(rest, n - i)
          case Err(e) => Err(e)
          case Ok((more, tail)) => Ok((messages + more, tail))
      {
        ghost var more := FrameMany(rest, n - i);
        var r1 := ReadBerMessage();
        if r1.Err? {
          return Err(r1.error);
        }
        ghost var after := FrameMany(rest, n - i - 1);
        assert after.Ok? ==> messages + ([r1.value] + after.value.0) == messages + [r1.value] + after.value.0;
        messages := messages + [r1.value];
      }
      assert messages + [] == messages;
      r := Ok(messages);
    }
  }

  function FrameMany(s: seq<byte>, n: nat): Outcome<(seq<seq<byte>>, seq<byte>), FrameError>
    decreases n
  {
    if n == 0 then Ok(([], s))
    else
      match BerFrame(s)
      case Err(e) => Err(e)
      case Ok((message, tail)) =>
        match FrameMany(tail, n - 1)
        case Err(e) => Err(e)
        case Ok((more, end)) => Ok(([message] + more, end))
  }

  // ----- What the readers cut off -----

  lemma HeaderIsParseLen(s: seq<byte>)
    requires |s| >= 2
    ensures match ParseLen(s[1..])
      case Err(_) => BerHeader(s).Err?
      case Ok((len, used)) => BerHeader(s) == Ok((1 + used, len))
  {
    assert s[1..][0] == s[1];
    if s[1] >= 128 {
      var n := s[1] - 128;
      if 2 + n <= |s| {
        assert s[1..][1..1 + n] == s[2..2 + n];
      }
    }
  }

  /** The length that n length bytes announce, most significant first. */
  function Announces(s: seq<byte>, n: nat): nat
    requires 2 + n <= |s|
  {
    if n == 0 then 0 else 256 * Announces(s, n - 1) + s[1 + n]
  }

  lemma {:induction false} AnnouncesIsFromBe(s: seq<byte>, n: nat)
    requires 2 + n <= |s|
    ensures Announces(s, n) == FromBe(s[2..2 + n])
  {
    if n > 0 {
      AnnouncesIsFromBe(s, n - 1);
      assert s[2..2 + n][..n - 1] == s[2..2 + (n - 1)];
    }
  }

  /** The header in front has n length bytes and, if it is all there, announces
      len octets of content. */
  ghost predicate HeaderSays(s: seq<byte>, n: nat, len: nat) {
    && n == (if |s| < 2 || s[1] < 128 then 0 else s[1] - 128)
    && (2 + n <= |s| ==> len == if s[1] < 128 then s[1] else Announces(s, n))
  }

  lemma BerHeaderIs(s: seq<byte>, n: nat, len: nat)
    requires |s| >= 2 && HeaderSays(s, n, len)
    ensures BerHeader(s)
         == if s[1] == 128 || n > 4 then Err(InvalidLength) else if |s| < 2 + n then Err(UnexpectedEof) else Ok((2 + n, len))
  {
    if s[1] >= 128 && 2 + n <= |s| {
      AnnouncesIsFromBe(s, n);
    }
  }

  /** Every way a read ends: which prefix of the stream is taken, and which error
      is given when. */
  lemma BerFrameSpec(s: seq<byte>, n: nat, len: nat)
    requires HeaderSays(s, n, len)
    ensures BerFrame(s)
         == if |s| < 2 then Err(UnexpectedEof)
            else if s[1] == 128 || n > 4 then Err(InvalidLength)
            else if |s| < 2 + n then Err(UnexpectedEof)
            else if len > 16777216 then Err(InvalidLength)
            else if |s| < 2 + n + len then Err(UnexpectedEof)
            else Ok((s[..2 + n + len], s[2 + n + len..]))
  {
    if |s| >= 2 {
      BerHeaderIs(s, n, len);
    }
  }

  /** The same for the TLV parser: its content is what the header announces. */
  lemma ParseTlvSpec(s: seq<byte>, n: nat, len: nat)
    requires HeaderSays(s, n, len)
    ensures ParseTlv(s)
         == if |s| < 2 || s[1] == 128 || n > 4 || |s| < 2 + n || |s| < 2 + n + len then Err(Truncated)
            else Ok((s[0], s[2 + n..2 + n + len], s[2 + n + len..]))
  {
    if |s| >= 2 {
      BerHeaderIs(s, n, len);
      TlvByHeader(s);
    }
  }

  lemma TlvByHeader(s: seq<byte>)
    requires |s| >= 2
    ensures BerHeader(s).Err? ==> ParseTlv(s) == Err(Truncated)
    ensures BerHeader(s).Ok? ==>
      var (h, len) := BerHeader(s).value;
      ParseTlv(s) == if h + len > |s| then Err(Truncated) else Ok((s[0], s[h..h + len], s[h + len..]))
  {
    HeaderIsParseLen(s);
  }

  lemma SmuxHeaderIs(s: seq<byte>, n: nat, len: nat)
    requires |s| >= 2 && HeaderSays(s, n, len)
    ensures SmuxHeader(s) == if |s| < 2 + n then Err(UnexpectedEof) else Ok((2 + n, len % 0x1_0000_0000_0000_0000))
  {
    if s[1] >= 128 && 2 + n <= |s| {
      AnnouncesIsFromBe(s, n);
      FoldIsMod(s[2..2 + n], 0x1_0000_0000_0000_0000);
    }
  }

  /** The same for the SMUX reader: any number of length bytes, of whose value the
      low 64 bits count, and no cap below half the address space. */
  lemma SmuxFrameSpec(s: seq<byte>, n: nat, len: nat)
    requires HeaderSays(s, n, len)
    ensures var low := len % 0x1_0000_0000_0000_0000;
      SmuxFrame(s)
        == if |s| < 2 || |s| < 2 + n then Err(UnexpectedEof)
           else if low >= 0x8000_0000_0000_0000 then Err(CapacityOverflow)
           else if |s| < 2 + n + low then Err(UnexpectedEof)
           else Ok((s[..2 + n + low], s[2 + n + low..]))
  {
    if |s| >= 2 {
      SmuxHeaderIs(s, n, len);
    }
  }

  /** The stream reader takes a message off exactly when the TLV parser accepts
      the stream's front and its content is within the cap; both leave the same
      tail. */
  lemma BerFrameIsTlv(s: seq<byte>)
    ensures BerFrame(s).Ok? <==> ParseTlv(s).Ok? && |ParseTlv(s).value.1| <= 16777216
    ensures BerFrame(s).Ok? ==> BerFrame(s).value.1 == ParseTlv(s).value.2 && s == BerFrame(s).value.0 + BerFrame(s).value.1
  {
    if |s| >= 2 {
      HeaderIsParseLen(s);
    }
  }

  /** A built message within the cap is read whole and the rest of the stream is
      left; a longer one is refused. */
  lemma BuiltMessageIsFramed(tag: byte, content: seq<byte>, rest: seq<byte>)
    requires |content| < 0x1_0000_0000
    ensures BerFrame(Tlv(tag, content) + rest)
         == if |content| <= 16777216 then Ok((Tlv(tag, content), rest)) else Err(InvalidLength)
  {
    var s := Tlv(tag, content) + rest;
    var len := BerLen(|content|);
    LenRoundTripIff(|content|, content + rest);
    assert s[1..] == len + (content + rest);
    HeaderIsParseLen(s);
    assert s[..1 + |len| + |content|] == Tlv(tag, content);
    assert s[1 + |len| + |content|..] == rest;
  }

  datatype Message = Message(tag: byte, content: seq<byte>)

  function Stream(ms: seq<Message>): seq<byte> {
    if ms == [] then [] else Tlv(ms[0].tag, ms[0].content) + Stream(ms[1..])
  }

  function Encoded(ms: seq<Message>): seq<seq<byte>> {
    seq(|ms|, i requires 0 <= i < |ms| => Tlv(ms[i].tag, ms[i].content))
  }

  ghost predicate WithinCap(ms: seq<Message>) {
    forall i :: 0 <= i < |ms| ==> |ms[i].content| <= 16777216
  }

  /** Reading a concatenation of messages gives exactly those messages, in order,
      and leaves what follows untouched. */
  lemma {:induction false} StreamIsFramed(ms: seq<Message>, rest: seq<byte>)
    requires WithinCap(ms)
    ensures FrameMany(Stream(ms) + rest, |ms|) == Ok((Encoded(ms), rest))
    decreases |ms|
  {
    if ms == [] {
      assert Stream(ms) + rest == rest;
    } else {
      var first, later := Tlv(ms[0].tag, ms[0].content), Stream(ms[1..]) + rest;
      assert Stream(ms) + rest == first + later;
      BuiltMessageIsFramed(ms[0].tag, ms[0].content, later);
      StreamIsFramed(ms[1..], rest);
      FrameOneMore(first, later, |ms| - 1, Encoded(ms[1..]), rest);
      assert Encoded(ms) == [first] + Encoded(ms[1..]);
    }
  }

  lemma FrameOneMore(first: seq<byte>, later: seq<byte>, n: nat, more: seq<seq<byte>>, rest: seq<byte>)
    requires BerFrame(first + later) == Ok((first, later)) && FrameMany(later, n) == Ok((more, rest))
    ensures FrameMany(first + later, n + 1) == Ok(([first] + more, rest))
  {
  }

  /** What is read does not depend on what follows it. */
  lemma FramingIsLocal(message: seq<byte>, tail: seq<byte>, other: seq<byte>)
    requires BerFrame(message + tail) == Ok((message, tail))
    ensures BerFrame(message + other) == Ok((message, other))
  {
    var s, t := message + tail, message + other;
    var h, len := BerHeader(s).value.0, BerHeader(s).value.1;
    assert |s[..h + len]| == |message|;
    assert s[1] == message[1] == t[1];
    if s[1] >= 128 {
      assert s[2..h] == message[2..h] == t[2..h];
    }
    assert t[..h + len] == message && t[h + len..] == other;
  }

  /** A message, alone on its stream. */
  predicate IsMessage(m: seq<byte>) {
    BerFrame(m) == Ok((m, []))
  }

  /** No message is a proper prefix of another. */
  lemma MessagesArePrefixFree(m: seq<byte>, more: seq<byte>)
    requires IsMessage(m) && IsMessage(m + more)
    ensures more == []
  {
    assert m + [] == m;
    FramingIsLocal(m, [], more);
  }

  /** The SMUX reader agrees with the other one wherever that one reads a
      message. */
  lemma SmuxFrameExtendsBerFrame(s: seq<byte>)
    requires BerFrame(s).Ok?
    ensures SmuxFrame(s) == BerFrame(s)
  {
    if s[1] >= 128 {
      var bs := s[2..2 + (s[1] - 128)];
      BeBound(bs);
      PowMonotone(|bs|, 8);
      Pow256Values();
      FoldIsFromBe(bs, 0x1_0000_0000_0000_0000);
    }
  }

  /** It also takes off some messages that the TLV parser then refuses: those in
      the long form with no length byte, or with more than four. */
  lemma SmuxFrameExtraMessages(s: seq<byte>)
    requires SmuxFrame(s).Ok?
    ensures ParseTlv(s).Ok? <==> s[1] <= 132 && s[1] != 128
  {
    HeaderIsParseLen(s);
    if 128 < s[1] <= 132 {
      var bs := s[2..2 + (s[1] - 128)];
      BeBound(bs);
      PowMonotone(|bs|, 8);
      Pow256Values();
      FoldIsFromBe(bs, 0x1_0000_0000_0000_0000);
    }
  }
}
