// The framing loop of the OpenFlow relay: bytes read from one side are
// buffered and cut into messages by the length field of the OpenFlow header
// (section A.1 of the OpenFlow Switch Specification 1.3: version and type of
// one byte each, a two-byte big-endian length, a four-byte xid). A complete
// message that the OpenFlow parser accepts is written to the other side.
// Sockets are not modelled: a read is a parameter, and the parser's verdict
// is the predicate `accepts`.

module ProxyFraming {
  type Byte = b: int | 0 <= b < 256

  /** `ofproto_common.OFP_HEADER_SIZE`. */
  const OFP_HEADER_SIZE: nat := 8

  /** The header's length field, bytes 2 and 3 in network order. */
  function DeclaredLength(buf: seq<Byte>): nat
    requires |buf| >= OFP_HEADER_SIZE
  {
    (buf[2] as int) * 256 + buf[3] as int
  }

  /** `msg_len`, raised to the header size when the declared length is smaller. */
  function MsgLen(buf: seq<Byte>): (n: nat)
    requires |buf| >= OFP_HEADER_SIZE
    ensures n >= OFP_HEADER_SIZE && n >= DeclaredLength(buf)
    ensures n == OFP_HEADER_SIZE || n == DeclaredLength(buf)
  {
    if DeclaredLength(buf) < OFP_HEADER_SIZE then OFP_HEADER_SIZE else DeclaredLength(buf)
  }

  function Concat(frames: seq<seq<Byte>>): seq<Byte>
  {
    if frames == [] then [] else frames[0] + Concat(frames[1..])
  }

  /** What one pass of the inner loop does with a buffer. */
  datatype Framing = Framing(frames: seq<seq<Byte>>, forwarded: seq<seq<Byte>>, rest: seq<Byte>, remaining: nat)

  /**
   * The inner `while buf_len >= min_read_len` loop on buf with read size
   * `remaining` before it: every complete message at the front is cut off
   * (and forwarded when accepted) and the read size goes back to the header
   * size; an incomplete one stays and the read size is what it lacks.
   */
  function Split(buf: seq<Byte>, remaining: nat, accepts: seq<Byte> -> bool): Framing
    decreases |buf|
  {
    if |buf| < OFP_HEADER_SIZE then Framing([], [], buf, remaining)
    else
      var n := MsgLen(buf);
      if |buf| < n then Framing([], [], buf, n - |buf|)
      else
        var r := Split(buf[n..], OFP_HEADER_SIZE, accepts);
        Framing([buf[..n]] + r.frames, (if accepts(buf[..n]) then [buf[..n]] else []) + r.forwarded, r.rest, r.remaining)
  }

  /** Cutting loses and invents no byte: the messages cut off followed by what is left are the buffer. */
  lemma {:induction false} SplitConserves(buf: seq<Byte>, remaining: nat, accepts: seq<Byte> -> bool)
    ensures Concat(Split(buf, remaining, accepts).frames) + Split(buf, remaining, accepts).rest == buf
    decreases |buf|
  {
    if |buf| >= OFP_HEADER_SIZE && |buf| >= MsgLen(buf) {
      SplitConserves(buf[MsgLen(buf)..], OFP_HEADER_SIZE, accepts);
      ConservesStep(buf, remaining, accepts);
    } else {
      assert Split(buf, remaining, accepts).frames == [];
    }
  }

  /** The step of SplitConserves: one message cut off in front of what the rest of the buffer conserves. */
  lemma ConservesStep(buf: seq<Byte>, remaining: nat, accepts: seq<Byte> -> bool)
    requires |buf| >= OFP_HEADER_SIZE && |buf| >= MsgLen(buf)
    requires var r := Split(buf[MsgLen(buf)..], OFP_HEADER_SIZE, accepts); Concat(r.frames) + r.rest == buf[MsgLen(buf)..]
    ensures Concat(Split(buf, remaining, accepts).frames) + Split(buf, remaining, accepts).rest == buf
  {
    var n := MsgLen(buf);
    var r := Split(buf[n..], OFP_HEADER_SIZE, accepts);
    ConcatCons(buf[..n], r.frames);
    JoinParts(buf[..n], Concat(r.frames), r.rest, buf[n..]);
    TakeDrop(buf, n);
  }

  lemma JoinParts<T>(f: seq<T>, c: seq<T>, rest: seq<T>, tail: seq<T>)
    requires c + rest == tail
    ensures (f + c) + rest == f + tail
  {
    assert (f + c) + rest == f + (c + rest);
  }

  lemma AppendAssoc<T>(a: seq<T>, b: seq<T>, c: seq<T>)
    ensures a + (b + c) == (a + b) + c
  {
  }

  lemma TakeDrop<T>(s: seq<T>, n: int)
    requires 0 <= n <= |s|
    ensures s[..n] + s[n..] == s
  {
  }

  /**
   * Every message cut off is exactly as long as its header says (at least a
   * header), it is forwarded iff the parser accepts it, and what is left is
   * shorter than a header or shorter than its own message; the next read
   * asks for exactly the missing bytes.
   */
  lemma {:induction false} SplitFrames(buf: seq<Byte>, remaining: nat, accepts: seq<Byte> -> bool)
    ensures var r := Split(buf, remaining, accepts);
      (forall k :: 0 <= k < |r.frames| ==> |r.frames[k]| >= OFP_HEADER_SIZE && |r.frames[k]| == MsgLen(r.frames[k])) &&
      r.forwarded == Accepted(r.frames, accepts) &&
      (|r.rest| < OFP_HEADER_SIZE || (|r.rest| < MsgLen(r.rest) && r.remaining == MsgLen(r.rest) - |r.rest|)) &&
      (remaining >= 1 ==> r.remaining >= 1)
  {
    if |buf| >= OFP_HEADER_SIZE && |buf| >= MsgLen(buf) {
      var n := MsgLen(buf);
      SplitFrames(buf[n..], OFP_HEADER_SIZE, accepts);
      var r := Split(buf[n..], OFP_HEADER_SIZE, accepts);
      var f := buf[..n];
      assert f[..OFP_HEADER_SIZE] == buf[..OFP_HEADER_SIZE];
      assert MsgLen(f) == n by {
        assert f[2] == buf[2] && f[3] == buf[3];
      }
      assert ([f] + r.frames)[1..] == r.frames;
    }
  }

  /** The accepted messages, in order. */
  function Accepted(frames: seq<seq<Byte>>, accepts: seq<Byte> -> bool): seq<seq<Byte>>
  {
    if frames == [] then [] else (if accepts(frames[0]) then [frames[0]] else []) + Accepted(frames[1..], accepts)
  }

  lemma ConcatCons(f: seq<Byte>, frames: seq<seq<Byte>>)
    ensures Concat([f] + frames) == f + Concat(frames)
  {
    assert ([f] + frames)[1..] == frames;
  }

  lemma {:induction false} ConcatAppend(a: seq<seq<Byte>>, b: seq<seq<Byte>>)
    ensures Concat(a + b) == Concat(a) + Concat(b)
  {
    if a != [] {
      assert (a + b)[1..] == a[1..] + b;
      ConcatAppend(a[1..], b);
    } else {
      assert a + b == b;
    }
  }

  lemma {:induction false} AcceptedAppend(a: seq<seq<Byte>>, b: seq<seq<Byte>>, accepts: seq<Byte> -> bool)
    ensures Accepted(a + b, accepts) == Accepted(a, accepts) + Accepted(b, accepts)
  {
    if a != [] {
      assert (a + b)[1..] == a[1..] + b;
      AcceptedAppend(a[1..], b, accepts);
    } else {
      assert a + b == b;
    }
  }

  /**
   * The inner loop itself: cut complete messages off the front of buf,
   * keeping those the parser accepts, until less than a header or an
   * incomplete message is left.
   */
  method CutMessages(buf: seq<Byte>, remaining: nat, accepts: seq<Byte> -> bool)
    returns (rest: seq<Byte>, cut: seq<seq<Byte>>, sent: seq<seq<Byte>>, rem: nat)
    ensures Framing(cut, sent, rest, rem) == Split(buf, remaining, accepts)
  {
    rest, rem, cut, sent := buf, remaining, [], [];
    while |rest| >= OFP_HEADER_SIZE
      invariant Split(buf, remaining, accepts).frames == cut + Split(rest, rem, accepts).frames
      invariant Split(buf, remaining, accepts).forwarded == sent + Split(rest, rem, accepts).forwarded
      invariant Split(buf, remaining, accepts).rest == Split(rest, rem, accepts).rest
      invariant Split(buf, remaining, accepts).remaining == Split(rest, rem, accepts).remaining
      decreases |rest|
    {
      var msgLen := MsgLen(rest);
      if |rest| < msgLen {
        rem := msgLen - |rest|;
        break;
      }
      var msg := rest[..msgLen];
      var r := Split(rest[msgLen..], OFP_HEADER_SIZE, accepts);
      var took := if accepts(msg) then [msg] else [];
      assert Split(rest, rem, accepts) == Framing([msg] + r.frames, took + r.forwarded, r.rest, r.remaining);
      AppendAssoc(cut, [msg], r.frames);
      AppendAssoc(sent, took, r.forwarded);
      sent := sent + took;
      cut := cut + [msg];
      rest := rest[msgLen..];
      rem := OFP_HEADER_SIZE;
    }
    assert Split(rest, rem, accepts) == Framing([], [], rest, rem);
    assert cut + [] == cut && sent + [] == sent;
  }

  /** Buffering a read and cutting the buffer keeps the relay's invariant. */
  lemma SplitKeeps(frames: seq<seq<Byte>>, buf: seq<Byte>, ret: seq<Byte>, remaining: nat, accepts: seq<Byte> -> bool)
    requires remaining >= 1
    ensures var r := Split(buf + ret, remaining, accepts);
      Concat(frames + r.frames) + r.rest == (Concat(frames) + buf) + ret &&
      Accepted(frames + r.frames, accepts) == Accepted(frames, accepts) + r.forwarded &&
      r.remaining >= 1
  {
    var x := buf + ret;
    var r := Split(x, remaining, accepts);
    SplitConserves(x, remaining, accepts);
    SplitFrames(x, remaining, accepts);
    ConcatAppend(frames, r.frames);
    AcceptedAppend(frames, r.frames, accepts);
    Regroup(Concat(frames), Concat(r.frames), r.rest, buf, ret);
  }

  lemma Regroup<T>(a: seq<T>, b: seq<T>, c: seq<T>, d: seq<T>, e: seq<T>)
    requires b + c == d + e
    ensures (a + b) + c == (a + d) + e
  {
    assert (a + b) + c == a + (b + c);
    assert (a + d) + e == a + (d + e);
  }

  /**
   * One `relay` direction: the buffer and the read size, the messages
   * written to the other side and (ghost) every byte read and every message
   * cut off so far.
   */
  class Relay {
    var buf: seq<Byte>
    var remainingReadLen: nat
    var forwarded: seq<seq<Byte>>
    var closed: bool
    ghost var received: seq<Byte>
    ghost var frames: seq<seq<Byte>>

    /** The relay's invariant: the bytes cut off and the bytes buffered are all the bytes read. */
    ghost predicate Valid()
      reads this
    {
      Concat(frames) + buf == received &&
      forwarded == Accepted(frames, accepts0) &&
      remainingReadLen >= 1
    }

    const accepts0: seq<Byte> -> bool

    /** `buf = b''`, `remaining_read_len = OFP_HEADER_SIZE`. */
    constructor (accepts: seq<Byte> -> bool)
      ensures Valid() && !closed
      ensures buf == [] && remainingReadLen == OFP_HEADER_SIZE && forwarded == [] && received == [] && accepts0 == accepts
    {
      buf, remainingReadLen, forwarded, closed := [], OFP_HEADER_SIZE, [], false;
      received, frames := [], [];
      accepts0 := accepts;
    }

    /** `read_len`: the header size, or the missing part of the buffered message when that is larger. */
    method ReadLen() returns (n: nat)
      ensures n == if remainingReadLen > OFP_HEADER_SIZE then remainingReadLen else OFP_HEADER_SIZE
    {
      n := OFP_HEADER_SIZE;
      if remainingReadLen > OFP_HEADER_SIZE {
        n := remainingReadLen;
      }
    }

    /**
     * One turn of the outer loop after `r.read(read_len)` returned ret: an
     * empty read ends the relay; otherwise ret is buffered and every complete
     * message is cut off.
     */
    method Receive(ret: seq<Byte>)
      requires Valid() && !closed
      modifies this
      ensures Valid()
      ensures ret == [] ==> closed && buf == old(buf) && received == old(received) && forwarded == old(forwarded)
      ensures ret != [] ==> (!closed && received == old(received) + ret &&
        var r := Split(old(buf) + ret, old(remainingReadLen), accepts0);
        frames == old(frames) + r.frames && forwarded == old(forwarded) + r.forwarded &&
        buf == r.rest && remainingReadLen == r.remaining)
    {
      if ret == [] {
        closed := true;
        return;
      }
      var cur, cut, sent, rem := CutMessages(buf + ret, remainingReadLen, accepts0);
      SplitKeeps(frames, buf, ret, remainingReadLen, accepts0);
      frames := frames + cut;
      forwarded := forwarded + sent;
      received := received + ret;
      buf := cur;
      remainingReadLen := rem;
    }
  }
}
