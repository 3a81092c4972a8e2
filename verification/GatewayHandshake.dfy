/** The transport handshake of crates/unpin-cli/src/gateway_session.rs: a magic
    prefix, a length and a capability tag that the launched process must present
    before its connection is served. */
module GatewayHandshake {
  import opened Bytes

  const MAX_TAG_BYTES := 128

  function Magic(): (m: seq<byte>)
    ensures |m| == 21
  {
    Ascii("UNPIN-GATEWAY-AUTH/1") + [0]
  }

  predicate ValidTag(tag: seq<byte>) {
    1 <= |tag| <= MAX_TAG_BYTES
  }

  function Big16(n: nat): (s: seq<byte>)
    requires n < 0x1_0000
    ensures |s| == 2
  {
    [n / 256, n % 256]
  }

  function FromBig16(s: seq<byte>): (n: nat)
    requires |s| == 2
    ensures n < 0x1_0000 && Big16(n) == s
  {
    var high: int, low: int := s[0], s[1];
    high * 256 + low
  }

  lemma Big16RoundTrip(n: nat)
    requires n < 0x1_0000
    ensures FromBig16(Big16(n)) == n
  {}

  function Frame(tag: seq<byte>): (frame: seq<byte>)
    requires ValidTag(tag)
    ensures |frame| == 23 + |tag|
  {
    Magic() + Big16(|tag|) + tag
  }

  datatype FrameResult = Framed(frame: seq<byte>) | InvalidTag

  /** The client's side: a frame is built for exactly the tags the server can accept. */
  method GatewayTransportHandshakeFrame(tag: seq<byte>) returns (result: FrameResult)
    ensures result == if ValidTag(tag) then Framed(Frame(tag)) else InvalidTag
  {
    if tag == [] || |tag| > MAX_TAG_BYTES {
      return InvalidTag;
    }
    var frame := [];
    frame := frame + Magic();
    frame := frame + Big16(|tag|);
    frame := frame + tag;
    return Framed(frame);
  }

  lemma PrefixesCompare(a: seq<byte>, b: seq<byte>, stream: seq<byte>)
    requires a <= stream && b <= stream
    ensures a <= b || b <= a
    ensures |a| == |b| ==> a == b
  {
    assert a == stream[..|a|] && b == stream[..|b|];
  }

  /** No stream begins with the frames of two tags: frames are prefix-free. */
  lemma FrameIsUnique(a: seq<byte>, b: seq<byte>, stream: seq<byte>)
    requires ValidTag(a) && ValidTag(b)
    requires Frame(a) <= stream && Frame(b) <= stream
    ensures a == b
  {
    assert stream[21..23] == Big16(|a|) by {
      assert stream[21..23] == Frame(a)[21..23];
    }
    assert stream[21..23] == Big16(|b|) by {
      assert stream[21..23] == Frame(b)[21..23];
    }
    Big16RoundTrip(|a|);
    Big16RoundTrip(|b|);
    PrefixesCompare(Frame(a), Frame(b), stream);
    assert Frame(a)[23..] == a && Frame(b)[23..] == b;
  }

  /** A byte stream begins with some frame exactly when the magic, a length from 1
      to 128 and that many bytes are there. */
  lemma FrameRead(stream: seq<byte>)
    requires Magic() <= stream && |stream| >= 23
    ensures var n := FromBig16(stream[21..23]);
            1 <= n <= MAX_TAG_BYTES && |stream| >= 23 + n ==>
              stream == Frame(stream[23..23 + n]) + stream[23 + n..]
  {
    var n := FromBig16(stream[21..23]);
    if 1 <= n <= MAX_TAG_BYTES && |stream| >= 23 + n {
      assert stream == stream[..21] + stream[21..23] + stream[23..23 + n] + stream[23 + n..];
    }
  }

  lemma FramePrefix(tag: seq<byte>, stream: seq<byte>)
    requires ValidTag(tag) && Frame(tag) <= stream
    ensures Magic() <= stream && |stream| >= 23 + |tag|
    ensures FromBig16(stream[21..23]) == |tag| && stream[23..23 + |tag|] == tag
  {
    var frame := Frame(tag);
    assert stream[..|frame|] == frame;
    assert stream[21..23] == frame[21..23] && stream[23..23 + |tag|] == frame[23..];
    Big16RoundTrip(|tag|);
    assert frame[..21] == Magic();
  }

  /** A connection, as the bytes the peer has yet to be read before it closes. */
  class UnixStream {
    var unread: seq<byte>

    constructor (bytes: seq<byte>)
      ensures unread == bytes
    {
      unread := bytes;
    }

    /** All of the bytes asked for, or an error with the stream used up. */
    method ReadExact(n: nat) returns (ok: bool, bytes: seq<byte>)
      modifies this
      ensures ok <==> n <= |old(unread)|
      ensures ok ==> |bytes| == n && old(unread) == bytes + unread
      ensures !ok ==> unread == []
    {
      if n > |unread| {
        unread := [];
        return false, [];
      }
      bytes := unread[..n];
      unread := unread[n..];
      return true, bytes;
    }
  }

  /** Every byte is compared, whatever the earlier ones were. */
  method ConstantTimeEqual(left: seq<byte>, right: seq<byte>) returns (equal: bool)
    ensures equal <==> left == right
  {
    hide Or, Xor;
    if |left| != |right| {
      return false;
    }
    var difference := 0;
    for i := 0 to |left|
      invariant difference == Difference(left[..i], right[..i])
    {
      assert left[..i + 1][..i] == left[..i] && right[..i + 1][..i] == right[..i];
      difference := Or(difference, Xor(left[i], right[i]));
    }
    assert left[..|left|] == left && right[..|right|] == right;
    return difference == 0;
  }

  /** The server's side accepts a connection exactly when the stream begins with
      the frame of the expected tag, and then has read that frame and no more. */
  method AuthenticateGatewayConnection(stream: UnixStream, expectedTag: seq<byte>) returns (accepted: bool)
    modifies stream
    ensures accepted <==> ValidTag(expectedTag) && Frame(expectedTag) <= old(stream.unread)
    ensures accepted ==> old(stream.unread) == Frame(expectedTag) + stream.unread
  {
    hide Frame, Big16, FromBig16, Magic;
    ghost var all := stream.unread;
    if ValidTag(expectedTag) && Frame(expectedTag) <= all {
      FramePrefix(expectedTag, all);
    }
    var ok, magic := stream.ReadExact(|Magic()|);
    if !ok || magic != Magic() {
      return false;
    }
    var lengthBytes;
    ok, lengthBytes := stream.ReadExact(2);
    if !ok {
      return false;
    }
    assert all[21..23] == lengthBytes && all[23..] == stream.unread;
    var length := FromBig16(lengthBytes);
    if length == 0 || length > MAX_TAG_BYTES {
      return false;
    }
    var received;
    ok, received := stream.ReadExact(length);
    if !ok {
      return false;
    }
    assert all[23..23 + length] == received && all[23 + length..] == stream.unread;
    FrameRead(all);
    var equal := ConstantTimeEqual(received, expectedTag);
    return equal;
  }

  /** Client and server together: a client holding a tag gets in exactly when it is
      the expected one, and what it sends next is what the server reads next. */
  method ConnectAndAuthenticate(tag: seq<byte>, expectedTag: seq<byte>, more: seq<byte>)
    returns (sent: bool, accepted: bool, left: seq<byte>)
    ensures sent <==> ValidTag(tag)
    ensures accepted <==> ValidTag(tag) && tag == expectedTag
    ensures accepted ==> left == more
  {
    var frame := GatewayTransportHandshakeFrame(tag);
    match frame {
      case InvalidTag => return false, false, [];
      case Framed(bytes) =>
        var stream := new UnixStream(bytes + more);
        accepted := AuthenticateGatewayConnection(stream, expectedTag);
        if ValidTag(expectedTag) && Frame(expectedTag) <= bytes + more {
          FrameIsUnique(tag, expectedTag, bytes + more);
        }
        if accepted {
          assert (bytes + more)[|bytes|..] == stream.unread && (bytes + more)[|bytes|..] == more;
        }
        return true, accepted, stream.unread;
    }
  }

  /** The frame, byte for byte. */
  lemma FrameIs(tag: seq<byte>)
    ensures ValidTag(tag) <==> 1 <= |tag| <= 128
    ensures ValidTag(tag) ==> Frame(tag) == Ascii("UNPIN-GATEWAY-AUTH/1") + [0] + [0, |tag|] + tag
  {
    hide IsUtf8, Ascii;
  }
}
