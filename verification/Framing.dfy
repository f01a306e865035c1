/** Messages on a byte stream, each framed by the length of its encoding in four little-endian bytes. */
module Framing {
  import opened Wrappers

  const TWO_TO_THE_32 := 0x1_0000_0000

  newtype byte = b: int | 0 <= b < 256

  datatype Msg = Msg(tag: nat, data: seq<byte>, ok: bool)

  /** The payload encoding, which is not this model's concern. */
  datatype Codec = Codec(encode: Msg -> seq<byte>, decode: seq<byte> -> Option<Msg>)

  ghost predicate Invertible(c: Codec) {
    forall m :: c.decode(c.encode(m)) == Some(m)
  }

  function Header(n: nat): seq<byte> {
    [(n % 256) as byte, (n / 256 % 256) as byte, (n / 65536 % 256) as byte, (n / 16777216 % 256) as byte]
  }

  function Length(h: seq<byte>): nat
    requires |h| == 4
  {
    h[0] as nat + 256 * h[1] as nat + 65536 * h[2] as nat + 16777216 * h[3] as nat
  }

  /** The four bytes hold the length modulo 2^32. */
  lemma HeaderLength(n: nat)
    ensures Length(Header(n)) == n % TWO_TO_THE_32
  {
    var a, b, c := n / 256, n / 65536, n / 16777216;
    assert b == a / 256 && c == b / 256;
    assert n == 256 * a + n % 256 && a == 256 * b + a % 256 && b == 256 * c + b % 256;
    assert c == 256 * (c / 256) + c % 256;
    assert n == TWO_TO_THE_32 * (c / 256) + Length(Header(n));
  }

  /** The first byte is the least significant: it is the length modulo 256, and the others are the
      first bytes of the header of the length divided by 256. */
  lemma LowByteFirst(n: nat, b: byte)
    ensures Header(256 * n + b as nat)[0] == b
    ensures Header(256 * n + b as nat)[1..] == Header(n)[..3]
  {
    var m := 256 * n + b as nat;
    assert m / 256 == n && m / 65536 == n / 256 && m / 16777216 == n / 65536;
  }

  lemma ZeroHeader()
    ensures Header(0) == [0, 0, 0, 0]
  {
  }

  function Frame(c: Codec, m: Msg): seq<byte> {
    Header(|c.encode(m)|) + c.encode(m)
  }

  /** A call read and the bytes after it, or one of the ways reading ends: at end of file, inside a
      header or payload, or on a payload that does not decode, which ends the process. */
  datatype ReadResult = Call(m: Msg, rest: seq<byte>) | EndOfFile | UnexpectedEnd | BadPayload

  function Read(c: Codec, s: seq<byte>): ReadResult {
    if |s| == 0 then EndOfFile
    else if |s| < 4 then UnexpectedEnd
    else
      var n, body := Length(s[..4]), s[4..];
      if n > 0 && |body| == 0 then EndOfFile
      else if |body| < n then UnexpectedEnd
      else
        match c.decode(body[..n])
        case None => BadPayload
        case Some(m) => Call(m, body[n..])
  }

  class Transport {
    const codec: Codec
    var incoming: seq<byte>   // bytes the peer has sent that are not read yet
    var outgoing: seq<byte>   // bytes that left for the peer
    var broken: bool          // a write failed; all later ones do

    constructor (c: Codec)
      ensures codec == c && incoming == [] && outgoing == [] && !broken
    {
      codec, incoming, outgoing, broken := c, [], [], false;
    }

    ghost function Out(): Output
      reads this
    {
      Output(outgoing, broken)
    }

    /** io.ReadFull: the next n bytes, or how many there were before the end. */
    method ReadFull(n: nat) returns (b: seq<byte>, end: Option<ReadResult>)
      modifies this
      ensures |old(incoming)| >= n ==> end == None && b == old(incoming)[..n] && incoming == old(incoming)[n..]
      ensures |old(incoming)| < n ==> end == Some(if old(incoming) == [] then EndOfFile else UnexpectedEnd) && incoming == []
      ensures Out() == old(Out())
    {
      if n <= |incoming| {
        b, end := incoming[..n], None;
        incoming := incoming[n..];
      } else {
        b := incoming;
        end := Some(if incoming == [] then EndOfFile else UnexpectedEnd);
        incoming := [];
      }
    }

    method ReadCall() returns (r: ReadResult)
      modifies this
      ensures r == Read(codec, old(incoming))
      ensures r.Call? ==> incoming == r.rest
      ensures Out() == old(Out())
    {
      var h, end := ReadFull(4);
      if end.Some? {
        return end.value;
      }
      var b, end' := ReadFull(Length(h));
      if end'.Some? {
        return end'.value;
      }
      match codec.decode(b)
      case None => r := BadPayload;
      case Some(m) => r := Call(m, incoming);
    }

    /** Some bytes, of which the connection takes at most `room`; the rest is lost with an error. */
    method Write(b: seq<byte>, room: nat) returns (ok: bool)
      modifies this
      ensures ok <==> !old(broken) && |b| <= room
      ensures outgoing == old(outgoing) + if old(broken) then [] else b[..Min(|b|, room)]
      ensures broken == !ok
      ensures incoming == old(incoming)
    {
      if !broken {
        outgoing := outgoing + b[..Min(|b|, room)];
        broken := |b| > room;
      }
      ok := !broken;
    }

    /** Writing a message, when the connection takes at most `room` more bytes. */
    method WriteCall(m: Msg, room: nat) returns (ok: bool)
      modifies this
      ensures Out() == Written(codec, old(Out()), m, room)
      ensures ok <==> !broken
      ensures incoming == old(incoming)
    {
      var b := codec.encode(m);
      ghost var f, before := Frame(codec, m), outgoing;
      ok := Write(Header(|b|), room);
      if ok {
        ok := Write(b, room - 4);
        assert outgoing == before + f[..Min(|f|, room)];
      } else if room < 4 {
        assert f[..room] == Header(|b|)[..room];
      }
    }
  }

  function Min(x: nat, y: nat): nat {
    if x <= y then x else y
  }

  datatype Output = Output(bytes: seq<byte>, broken: bool)

  /** The output after a message that meets `room` bytes of it at the connection. */
  function Written(c: Codec, o: Output, m: Msg, room: nat): Output {
    var f := Frame(c, m);
    if o.broken then o else Output(o.bytes + f[..Min(|f|, room)], room < |f|)
  }

  // ----- whole streams

  function WriteAll(c: Codec, ms: seq<Msg>): seq<byte> {
    if ms == [] then [] else Frame(c, ms[0]) + WriteAll(c, ms[1..])
  }

  /** The calls read until reading ends, and how it ends. */
  function ReadAll(c: Codec, s: seq<byte>): (seq<Msg>, ReadResult)
    decreases |s|
  {
    var r := Read(c, s);
    if r.Call? then
      assert |r.rest| < |s|;
      var (ms, end) := ReadAll(c, r.rest);
      ([r.m] + ms, end)
    else ([], r)
  }

  ghost predicate Fits(c: Codec, ms: seq<Msg>) {
    forall m | m in ms :: |c.encode(m)| < TWO_TO_THE_32
  }

  lemma FrameParts(c: Codec, m: Msg, rest: seq<byte>)
    ensures var s := Frame(c, m) + rest;
            && s[4..] == c.encode(m) + rest
            && Length(s[..4]) == |c.encode(m)| % TWO_TO_THE_32
  {
    HeaderLength(|c.encode(m)|);
    assert (Frame(c, m) + rest)[..4] == Header(|c.encode(m)|);
  }

  /** Reading a payload whose stated length is n. */
  lemma ReadBody(c: Codec, s: seq<byte>, b: seq<byte>, rest: seq<byte>)
    requires |s| >= 4 && s[4..] == b + rest && Length(s[..4]) <= |b|
    ensures var n := Length(s[..4]); var d := c.decode(b[..n]);
            Read(c, s) == if d.None? then BadPayload else Call(d.value, b[n..] + rest)
  {
    var n := Length(s[..4]);
    assert (b + rest)[..n] == b[..n] && (b + rest)[n..] == b[n..] + rest;
  }

  /** A frame is read back whole, and nothing beyond it, exactly when its payload is shorter than
      2^32 bytes. */
  lemma FrameReadsBack(c: Codec, m: Msg, rest: seq<byte>)
    requires Invertible(c)
    ensures Read(c, Frame(c, m) + rest) == Call(m, rest) <==> |c.encode(m)| < TWO_TO_THE_32
  {
    var b := c.encode(m);
    FrameParts(c, m, rest);
    ReadBody(c, Frame(c, m) + rest, b, rest);
    var n := |b| % TWO_TO_THE_32;
    if |b| < TWO_TO_THE_32 {
      assert b[..n] == b && b[n..] + rest == rest;
    } else {
      assert |b[n..] + rest| > |rest|;
    }
  }

  /** How many whole frames lie in the first k bytes. */
  function Whole(c: Codec, ms: seq<Msg>, k: nat): (j: nat)
    ensures j <= |ms|
  {
    if ms == [] || k < |Frame(c, ms[0])| then 0
    else 1 + Whole(c, ms[1..], k - |Frame(c, ms[0])|)
  }

  /** How far the cut at byte k is into the frame it falls in. */
  function Into(c: Codec, ms: seq<Msg>, k: nat): nat {
    if ms == [] || k < |Frame(c, ms[0])| then k
    else Into(c, ms[1..], k - |Frame(c, ms[0])|)
  }

  /** How reading ends i bytes into a frame: as at end of file if nothing or only the header of a
      payload is left, and as inside a message otherwise. */
  function EndAt(i: nat): ReadResult {
    if i == 0 || i == 4 then EndOfFile else UnexpectedEnd
  }

  /** A frame cut short is not read. */
  lemma CutFrame(c: Codec, m: Msg, k: nat)
    requires k < |Frame(c, m)| && |c.encode(m)| < TWO_TO_THE_32
    ensures Read(c, Frame(c, m)[..k]) == EndAt(k)
  {
    var s := Frame(c, m)[..k];
    HeaderLength(|c.encode(m)|);
    if k >= 4 {
      assert s[..4] == Header(|c.encode(m)|);
    }
  }

  lemma CutEarly(c: Codec, m: Msg, tail: seq<byte>, k: nat)
    requires k < |Frame(c, m)| && |c.encode(m)| < TWO_TO_THE_32
    ensures ReadAll(c, (Frame(c, m) + tail)[..k]) == ([], EndAt(k))
  {
    assert (Frame(c, m) + tail)[..k] == Frame(c, m)[..k];
    CutFrame(c, m, k);
  }

  lemma CutLate(c: Codec, m: Msg, tail: seq<byte>, k: nat)
    requires Invertible(c) && |c.encode(m)| < TWO_TO_THE_32 && |Frame(c, m)| <= k <= |Frame(c, m)| + |tail|
    ensures var (ms, end) := ReadAll(c, tail[..k - |Frame(c, m)|]);
            ReadAll(c, (Frame(c, m) + tail)[..k]) == ([m] + ms, end)
  {
    var cut := tail[..k - |Frame(c, m)|];
    assert (Frame(c, m) + tail)[..k] == Frame(c, m) + cut;
    FrameReadsBack(c, m, cut);
  }

  lemma TakeNext<T>(s: seq<T>, j: nat)
    requires s != [] && j <= |s[1..]|
    ensures [s[0]] + s[1..][..j] == s[..j + 1]
  {
  }

  /** Cutting the written stream anywhere, a reader gets exactly the messages whose frames are whole,
      in order, and then an end. */
  lemma {:induction false} CutStream(c: Codec, ms: seq<Msg>, k: nat)
    requires Invertible(c) && Fits(c, ms) && k <= |WriteAll(c, ms)|
    ensures ReadAll(c, WriteAll(c, ms)[..k]) == (ms[..Whole(c, ms, k)], EndAt(Into(c, ms, k)))
  {
    if ms != [] {
      var f, tail := Frame(c, ms[0]), WriteAll(c, ms[1..]);
      assert ms[0] in ms;
      if k < |f| {
        CutEarly(c, ms[0], tail, k);
      } else {
        CutStream(c, ms[1..], k - |f|);
        CutLate(c, ms[0], tail, k);
        TakeNext(ms, Whole(c, ms[1..], k - |f|));
      }
    }
  }

  lemma {:induction false} AllWhole(c: Codec, ms: seq<Msg>)
    ensures Whole(c, ms, |WriteAll(c, ms)|) == |ms| && Into(c, ms, |WriteAll(c, ms)|) == 0
  {
    if ms != [] {
      AllWhole(c, ms[1..]);
    }
  }

  /** Reading what was written returns exactly the messages, then end of file. */
  lemma RoundTrip(c: Codec, ms: seq<Msg>)
    requires Invertible(c) && Fits(c, ms)
    ensures ReadAll(c, WriteAll(c, ms)) == (ms, EndOfFile)
  {
    var s := WriteAll(c, ms);
    CutStream(c, ms, |s|);
    AllWhole(c, ms);
    assert s[..|s|] == s && ms[..|ms|] == ms;
  }

  // ----- writers that meet errors

  /** A message to write, and how many bytes the connection takes of it. */
  datatype Attempt = Attempt(m: Msg, room: nat)

  function AllWritten(c: Codec, o: Output, attempts: seq<Attempt>): Output
    decreases |attempts|
  {
    if attempts == [] then o
    else AllWritten(c, Written(c, o, attempts[0].m, attempts[0].room), attempts[1..])
  }

  /** The messages for which WriteCall returned no error. */
  function Acknowledged(c: Codec, o: Output, attempts: seq<Attempt>): seq<Msg>
    decreases |attempts|
  {
    if attempts == [] then []
    else
      var next := Written(c, o, attempts[0].m, attempts[0].room);
      (if next.broken then [] else [attempts[0].m]) + Acknowledged(c, next, attempts[1..])
  }

  lemma {:induction false} BrokenStays(c: Codec, o: Output, attempts: seq<Attempt>)
    requires o.broken
    ensures AllWritten(c, o, attempts) == o && Acknowledged(c, o, attempts) == []
  {
    if attempts != [] {
      BrokenStays(c, o, attempts[1..]);
    }
  }

  /** What is written goes after what was. */
  lemma {:induction false} WrittenAfter(c: Codec, pre: seq<byte>, o: Output, attempts: seq<Attempt>)
    ensures var p := Output(pre + o.bytes, o.broken);
            && AllWritten(c, p, attempts).bytes == pre + AllWritten(c, o, attempts).bytes
            && Acknowledged(c, p, attempts) == Acknowledged(c, o, attempts)
    decreases |attempts|
  {
    if attempts != [] {
      var a := attempts[0];
      var f := Frame(c, a.m);
      assert pre + (o.bytes + f[..Min(|f|, a.room)]) == pre + o.bytes + f[..Min(|f|, a.room)];
      WrittenAfter(c, pre, Written(c, o, a.m, a.room), attempts[1..]);
    }
  }

  /** Wherever the connection fails, a reader gets exactly the messages whose writing succeeded. */
  lemma {:induction false} AcknowledgedAreRead(c: Codec, attempts: seq<Attempt>)
    requires Invertible(c) && forall a | a in attempts :: |c.encode(a.m)| < TWO_TO_THE_32
    ensures var o := Output([], false);
            ReadAll(c, AllWritten(c, o, attempts).bytes).0 == Acknowledged(c, o, attempts)
  {
    if attempts != [] {
      var a, rest := attempts[0], attempts[1..];
      assert a in attempts;
      var f := Frame(c, a.m);
      var next := Written(c, Output([], false), a.m, a.room);
      if a.room < |f| {
        BrokenStays(c, next, rest);
        assert next.bytes == (f + [])[..a.room];
        CutEarly(c, a.m, [], a.room);
      } else {
        assert next.bytes == f + [] && f + [] == f;
        WrittenAfter(c, f, Output([], false), rest);
        AcknowledgedAreRead(c, rest);
        FrameReadsBack(c, a.m, AllWritten(c, Output([], false), rest).bytes);
      }
    }
  }
}
