/** The pipes between a server and its satellite process: each message is a frame of four length bytes,
    least significant first, and the payload. Both directions use the same code. */
module Pipes {
  import opened Numbers
  import opened Options

  type Message = seq<Byte>

  const WRAP := 0x1_0000_0000

  function EncodeLength(n: nat): (header: seq<Byte>)
    requires n < WRAP
    ensures |header| == 4
  {
    var a := n / 0x100;
    var b := a / 0x100;
    [n % 0x100, a % 0x100, b % 0x100, b / 0x100]
  }

  function DecodeLength(header: seq<Byte>): nat
    requires |header| == 4
  {
    var c: int, b: int, a: int, n: int := header[3], header[2], header[1], header[0];
    n + 0x100 * (a + 0x100 * (b + 0x100 * c))
  }

  lemma LengthRoundTrip(n: nat)
    requires n < WRAP
    ensures DecodeLength(EncodeLength(n)) == n
  {
    var a := n / 0x100;
    var b := a / 0x100;
    assert n == n % 0x100 + 0x100 * a && a == a % 0x100 + 0x100 * b && b == b % 0x100 + 0x100 * (b / 0x100);
  }

  /** The four bytes are the digits of the length to the base 256, least significant first. */
  lemma LengthIsLittleEndian(n: nat)
    requires n < WRAP
    ensures var h := EncodeLength(n);
      var d: int, c: int, b: int, a: int := h[3], h[2], h[1], h[0];
      n == a + 0x100 * b + 0x1_0000 * c + 0x100_0000 * d
  {
    LengthRoundTrip(n);
  }

  /** The length is cast to 32 bits, and only that much of the message is written. */
  function Written(message: Message): (w: Message)
    ensures |w| == |message| % WRAP && w <= message
  {
    message[..|message| % WRAP]
  }

  function Frame(message: Message): seq<Byte> {
    EncodeLength(|message| % WRAP) + Written(message)
  }

  function Stream(messages: seq<Message>): seq<Byte> {
    if messages == [] then [] else Frame(messages[0]) + Stream(messages[1..])
  }

  lemma {:induction false} StreamAppends(messages: seq<Message>, message: Message)
    ensures Stream(messages + [message]) == Stream(messages) + Frame(message)
  {
    var longer := messages + [message];
    if messages == [] {
      assert longer[1..] == [];
    } else {
      StreamAppends(messages[1..], message);
      assert longer[1..] == messages[1..] + [message];
    }
  }

  /** A stream of whole frames starts with a header that tells exactly where its first payload ends. */
  lemma FirstFrame(messages: seq<Message>)
    requires messages != []
    ensures var bytes, n := Stream(messages), |Written(messages[0])|;
      && |bytes| >= 4 + n && DecodeLength(bytes[..4]) == n
      && bytes[4..4 + n] == Written(messages[0]) && bytes[4 + n..] == Stream(messages[1..])
  {
    hide EncodeLength, DecodeLength, Written;
    var n := |messages[0]| % WRAP;
    LengthRoundTrip(n);
    ThreeParts(EncodeLength(n), Written(messages[0]), Stream(messages[1..]));
  }

  lemma ThreeParts(a: seq<Byte>, b: seq<Byte>, c: seq<Byte>)
    ensures var all := a + b + c;
      all[..|a|] == a && all[|a|..|a| + |b|] == b && all[|a| + |b|..] == c
  {}

  lemma NothingStreams()
    ensures Stream([]) == []
  {}

  /** What arrives is what was sent exactly when its length fits in 32 bits. */
  lemma WholeIffFits(message: Message)
    ensures Written(message) == message <==> |message| < WRAP
  {}

  class Pipe {
    /** What has been written and not yet read. */
    var bytes: seq<Byte>
    ghost var sent: seq<Message>
    ghost var received: seq<Message>

    /** Between calls the pipe holds the whole frames of the messages not yet received, and what has been
        received is what was written of the first messages sent. */
    ghost predicate Valid()
      reads this
    {
      && |received| <= |sent|
      && (forall i :: 0 <= i < |received| ==> received[i] == Written(sent[i]))
      && bytes == Stream(sent[|received|..])
    }

    constructor ()
      ensures Valid() && sent == [] && received == []
    {
      bytes, sent, received := [], [], [];
    }

    /** Header, then payload, with no receive in between. */
    method SendMessage(message: Message)
      requires Valid()
      modifies this
      ensures Valid() && sent == old(sent) + [message] && received == old(received)
    {
      hide Stream, EncodeLength;
      StreamAppends(sent[|received|..], message);
      var length := |message| % WRAP;
      bytes := bytes + EncodeLength(length);
      bytes := bytes + message[..length];
      sent := sent + [message];
      assert sent[|received|..] == old(sent)[|received|..] + [message];
      assert old(bytes) + EncodeLength(length) + message[..length] == old(bytes) + Frame(message);
    }

    /** Reads up to `n` of the bytes in the pipe. */
    method Read(n: nat) returns (r: seq<Byte>)
      modifies `bytes
      ensures |r| == if n < |old(bytes)| then n else |old(bytes)|
      ensures old(bytes) == r + bytes
    {
      var k := if n < |bytes| then n else |bytes|;
      r := bytes[..k];
      bytes := bytes[k..];
    }

    /** A receive takes exactly one frame, or nothing from an empty pipe. */
    method ReceiveMessage() returns (r: Option<Message>)
      requires Valid()
      modifies this
      ensures Valid() && sent == old(sent)
      ensures r.None? <==> |old(received)| == |sent|
      ensures received == if r.None? then old(received) else old(received) + [r.value]
    {
      hide Stream, DecodeLength, Written;
      ghost var pending := sent[|received|..];
      NothingStreams();
      if pending != [] { FirstFrame(pending); }
      var header := Read(4);
      if |header| != 4 { return None; }
      assert header == old(bytes)[..4] && bytes == old(bytes)[4..];
      var length := DecodeLength(header);
      ghost var rest := bytes;
      var message := Read(length);
      if |message| != length { return None; }
      received := received + [message];
      assert sent[|received|..] == pending[1..];
      assert message == rest[..length] && bytes == rest[length..];
      r := Some(message);
    }
  }
}
