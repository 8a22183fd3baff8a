/**
 * Cutting a peer's byte stream into messages (CNode::ReceiveMsgBytes and
 * CNetMessage in src/net.cpp, src/net.h): what comes out depends on the bytes
 * only, not on how they arrive.
 */
module NetMessages {
  import opened Common

  const HEADER_SIZE := 24
  const MAX_SIZE := 0x0200_0000
  const MAX_PROTOCOL_MESSAGE_LENGTH := 4 * 1000 * 1000
  const LOOK_AHEAD := 256 * 1024

  // ------------------------------------------------------------- whole streams

  /** The little-endian size field, after four start bytes and twelve of the command. */
  function SizeField(header: Bytes): (n: nat)
    requires |header| == HEADER_SIZE
    ensures n < TWO_32
  {
    var b: seq<int> := header;
    b[16] + 0x100 * b[17] + 0x1_0000 * b[18] + 0x100_0000 * b[19]
  }

  datatype Frame = Frame(header: Bytes, payload: Bytes)

  /** The complete messages of a stream, the bytes after them, and whether it is acceptable so far. */
  datatype Parsed = Parsed(frames: seq<Frame>, rest: Bytes, ok: bool)

  function Parse(s: Bytes): Parsed
    decreases |s|
  {
    if |s| < HEADER_SIZE then Parsed([], s, true)
    else
      var end := HEADER_SIZE + SizeField(s[..HEADER_SIZE]);
      if end > HEADER_SIZE + MAX_PROTOCOL_MESSAGE_LENGTH then Parsed([], s, false)
      else if |s| < end then Parsed([], s, true)
      else Behind([Frame(s[..HEADER_SIZE], s[HEADER_SIZE..end])], Parse(s[end..]))
  }

  function Behind(frames: seq<Frame>, p: Parsed): Parsed {
    Parsed(frames + p.frames, p.rest, p.ok)
  }

  /** More bytes do not touch what was already complete, nor a verdict against the stream. */
  lemma {:induction false} ParseMore(s: Bytes, t: Bytes)
    ensures var p := Parse(s);
            if p.ok then Parse(s + t) == Behind(p.frames, Parse(p.rest + t))
            else !Parse(s + t).ok && Parse(s + t).frames == p.frames
    decreases |s|
  {
    hide SizeField;
    if |s| < HEADER_SIZE {
      BehindNothing(Parse(s + t));
    } else {
      var end := HEADER_SIZE + SizeField(s[..HEADER_SIZE]);
      assert (s + t)[..HEADER_SIZE] == s[..HEADER_SIZE];
      if end > HEADER_SIZE + MAX_PROTOCOL_MESSAGE_LENGTH {
      } else if |s| < end {
        BehindNothing(Parse(s + t));
      } else {
        ParseMore(s[end..], t);
        assert (s + t)[HEADER_SIZE..end] == s[HEADER_SIZE..end];
        assert (s + t)[end..] == s[end..] + t;
        BehindTwice([Frame(s[..HEADER_SIZE], s[HEADER_SIZE..end])], Parse(s[end..]).frames,
                    Parse(Parse(s[end..]).rest + t));
      }
    }
  }

  lemma BehindNothing(p: Parsed)
    ensures Behind([], p) == p
  {
  }

  lemma BehindTwice(a: seq<Frame>, b: seq<Frame>, p: Parsed)
    ensures Behind(a, Behind(b, p)) == Behind(a + b, p)
  {
  }

  /** What is left over is the beginning of a message. */
  lemma {:induction false} RestIsBegun(s: Bytes)
    requires Parse(s).ok
    ensures Parse(Parse(s).rest) == Parsed([], Parse(s).rest, true)
    decreases |s|
  {
    hide SizeField;
    if |s| >= HEADER_SIZE && |s| >= HEADER_SIZE + SizeField(s[..HEADER_SIZE]) {
      RestIsBegun(s[HEADER_SIZE + SizeField(s[..HEADER_SIZE])..]);
    }
  }

  function Wire(frames: seq<Frame>): Bytes {
    if frames == [] then [] else frames[0].header + frames[0].payload + Wire(frames[1..])
  }

  predicate WellFormed(f: Frame) {
    |f.header| == HEADER_SIZE && SizeField(f.header) == |f.payload| <= MAX_PROTOCOL_MESSAGE_LENGTH
  }

  /** Messages sent one after the other arrive as those messages. */
  lemma {:induction false} ParseWire(frames: seq<Frame>)
    requires forall i | 0 <= i < |frames| :: WellFormed(frames[i])
    ensures Parse(Wire(frames)) == Parsed(frames, [], true)
  {
    if frames != [] {
      var f, rest := frames[0], Wire(frames[1..]);
      ParseWire(frames[1..]);
      var s := Wire(frames);
      assert s[..HEADER_SIZE] == f.header;
      assert s[HEADER_SIZE..HEADER_SIZE + |f.payload|] == f.payload;
      assert s[HEADER_SIZE + |f.payload|..] == rest;
    }
  }

  // --------------------------------------------------------------- one message

  class CNetMessage {
    var inData: bool
    var hdrbuf: Bytes
    var nHdrPos: nat
    var nMessageSize: nat
    var vRecv: Bytes
    var nDataPos: nat

    ghost predicate Valid()
      reads this
    {
      && |hdrbuf| == HEADER_SIZE
      && (inData ==>
            && nHdrPos == HEADER_SIZE && nMessageSize == SizeField(hdrbuf) <= MAX_PROTOCOL_MESSAGE_LENGTH
            && nDataPos <= |vRecv| <= nMessageSize)
      && (!inData ==> nHdrPos < HEADER_SIZE && vRecv == [] && nDataPos == 0)
    }

    /** The bytes of the message received so far. */
    ghost function Received(): Bytes
      requires Valid()
      reads this
    {
      hdrbuf[..nHdrPos] + vRecv[..nDataPos]
    }

    predicate Complete()
      reads this
    {
      inData && nMessageSize == nDataPos
    }

    /** A complete message holds exactly its payload, whatever was allocated ahead. */
    ghost function AsFrame(): (f: Frame)
      requires Valid() && Complete()
      reads this
      ensures Received() == f.header + f.payload && WellFormed(f)
    {
      Frame(hdrbuf, vRecv)
    }

    constructor ()
      ensures Valid() && !Complete() && Received() == []
    {
      inData, nHdrPos, nMessageSize, nDataPos := false, 0, TWO_32 - 1, 0;
      hdrbuf := seq(HEADER_SIZE, _ => 0);
      vRecv := [];
    }

    /** The bytes of a valid message parse as that message, or as the beginning of one. */
    lemma ReceivedParses()
      requires Valid()
      ensures Parse(Received()) == if Complete() then Parsed([AsFrame()], [], true) else Parsed([], Received(), true)
    {
      hide SizeField;
      if Complete() {
        var f := AsFrame();
        assert Wire([f]) == Received() by {
          assert [f][1..] == [] && Wire([]) == [];
        }
        ParseWire([f]);
      } else if inData {
        assert Received()[..HEADER_SIZE] == hdrbuf;
      }
    }

    /** Takes bytes for the header; None when the message is refused. */
    method ReadHeader(pch: Bytes) returns (handled: Option<nat>)
      requires Valid() && !inData && pch != []
      modifies this
      ensures handled == None ==> Refuses(old(Received()), pch)
      ensures handled.Some? ==> 0 < handled.value <= |pch|
      ensures handled.Some? && !inData ==>
                Valid() && Received() == old(Received()) + pch[..handled.value]
      ensures handled.Some? && inData ==>
                (if nMessageSize > MAX_PROTOCOL_MESSAGE_LENGTH then Refuses(old(Received()), pch)
                 else Valid() && Received() == old(Received()) + pch[..handled.value])
    {
      var nRemaining := HEADER_SIZE - nHdrPos;
      var nCopy := if nRemaining < |pch| then nRemaining else |pch|;
      ghost var was := hdrbuf[..nHdrPos];
      hdrbuf := hdrbuf[..nHdrPos] + pch[..nCopy] + hdrbuf[nHdrPos + nCopy..];
      nHdrPos := nHdrPos + nCopy;
      assert hdrbuf[..nHdrPos] == was + pch[..nCopy];
      assert old(Received()) == was;
      if nHdrPos < HEADER_SIZE {
        return Some(nCopy);
      }
      assert hdrbuf == was + pch[..nCopy];
      assert (was + pch)[..HEADER_SIZE] == hdrbuf;
      nMessageSize := SizeField(hdrbuf);
      if nMessageSize > MAX_SIZE {
        return None;
      }
      inData := true;
      handled := Some(nCopy);
    }

    /** Takes bytes for the payload, allocating room ahead but never beyond the message. */
    method ReadData(pch: Bytes) returns (handled: nat)
      requires Valid() && inData && !Complete() && pch != []
      modifies this`vRecv, this`nDataPos
      ensures Valid() && 0 < handled <= |pch|
      ensures Received() == old(Received()) + pch[..handled]
    {
      var nRemaining := nMessageSize - nDataPos;
      var nCopy := if nRemaining < |pch| then nRemaining else |pch|;
      ghost var was := vRecv[..nDataPos];
      if |vRecv| < nDataPos + nCopy {
        var ahead := nDataPos + nCopy + LOOK_AHEAD;
        var size := if nMessageSize < ahead then nMessageSize else ahead;
        vRecv := vRecv + seq(size - |vRecv|, _ => 0);
      }
      vRecv := vRecv[..nDataPos] + pch[..nCopy] + vRecv[nDataPos + nCopy..];
      nDataPos := nDataPos + nCopy;
      assert vRecv[..nDataPos] == was + pch[..nCopy];
      handled := nCopy;
    }

    /** Takes bytes for the part being received; None when the message is refused. */
    method Absorb(pch: Bytes) returns (handled: Option<nat>)
      requires Valid() && !Complete() && pch != []
      modifies this
      ensures handled.None? ==> Refuses(old(Received()), pch)
      ensures handled.Some? ==>
                Valid() && 0 < handled.value <= |pch| && Received() == old(Received()) + pch[..handled.value]
    {
      hide SizeField, Refuses;
      if !inData {
        handled := ReadHeader(pch);
        if handled.Some? && inData && nMessageSize > MAX_PROTOCOL_MESSAGE_LENGTH {
          handled := None;
        }
      } else {
        var n := ReadData(pch);
        handled := Some(n);
      }
    }
  }

  lemma NothingParses()
    ensures Parse([]) == Parsed([], [], true)
  {
  }

  /** The bytes make a header that announces too large a message. */
  ghost predicate Refuses(received: Bytes, more: Bytes) {
    && |received| < HEADER_SIZE <= |received + more|
    && SizeField((received + more)[..HEADER_SIZE]) > MAX_PROTOCOL_MESSAGE_LENGTH
  }

  lemma RefusedParses(received: Bytes, more: Bytes)
    requires Refuses(received, more)
    ensures Parse(received + more) == Parsed([], received + more, false)
  {
  }

  // ------------------------------------------------------------------ the node

  ghost predicate AllComplete(msgs: seq<CNetMessage>)
    reads msgs
  {
    forall i | 0 <= i < |msgs| :: msgs[i].Valid() && msgs[i].Complete()
  }

  ghost function FramesOf(msgs: seq<CNetMessage>): (frames: seq<Frame>)
    requires AllComplete(msgs)
    reads msgs
    ensures |frames| == |msgs| && forall i | 0 <= i < |msgs| :: frames[i] == msgs[i].AsFrame()
  {
    if msgs == [] then [] else FramesOf(msgs[..|msgs| - 1]) + [msgs[|msgs| - 1].AsFrame()]
  }

  class CNode {
    var vRecvMsg: seq<CNetMessage>
    /** All bytes received from the peer. */
    ghost var stream: Bytes

    /** The messages before the last one. */
    function Before(): seq<CNetMessage>
      reads this
    {
      if vRecvMsg == [] then [] else vRecvMsg[..|vRecvMsg| - 1]
    }

    ghost predicate Shaped()
      reads this, vRecvMsg
    {
      && AllComplete(Before())
      && (forall i | 0 <= i < |vRecvMsg| - 1 :: vRecvMsg[i] != vRecvMsg[|vRecvMsg| - 1])
      && (vRecvMsg != [] ==> vRecvMsg[|vRecvMsg| - 1].Valid())
    }

    /** The messages are what a parse of the whole stream gives. */
    ghost predicate Valid()
      reads this, vRecvMsg
    {
      && Shaped()
      && if vRecvMsg == [] then stream == []
         else
           var last := vRecvMsg[|vRecvMsg| - 1];
           Parse(stream) == Behind(FramesOf(Before()), Parse(last.Received()))
    }

    constructor ()
      ensures Valid() && vRecvMsg == [] && stream == []
    {
      vRecvMsg, stream := [], [];
    }

    /** Gets the message being received, or begins a new one. */
    method CurrentMessage() returns (msg: CNetMessage)
      requires Valid()
      modifies this`vRecvMsg
      ensures Valid() && vRecvMsg != [] && msg == vRecvMsg[|vRecvMsg| - 1] && !msg.Complete()
      ensures vRecvMsg == old(vRecvMsg) || (fresh(msg) && vRecvMsg == old(vRecvMsg) + [msg])
    {
      hide Parse, FramesOf, Valid;
      if vRecvMsg == [] || vRecvMsg[|vRecvMsg| - 1].Complete() {
        AllFinished();
        msg := new CNetMessage();
        msg.ReceivedParses();
        ghost var was := vRecvMsg;
        vRecvMsg := vRecvMsg + [msg];
        assert Before() == was;
        assert Valid() by { ValidAgain(was, msg); }
      } else {
        msg := vRecvMsg[|vRecvMsg| - 1];
        assert Shaped() by { ValidIsShaped(); }
      }
    }

    lemma ValidIsShaped()
      requires Valid()
      ensures Shaped()
    {
      hide Parse, FramesOf;
    }

    lemma AllFinished()
      requires Valid() && (vRecvMsg == [] || vRecvMsg[|vRecvMsg| - 1].Complete())
      ensures AllComplete(vRecvMsg) && Parse(stream) == Parsed(FramesOf(vRecvMsg), [], true)
    {
      hide Parse;
      NothingParses();
      if vRecvMsg != [] {
        vRecvMsg[|vRecvMsg| - 1].ReceivedParses();
      }
    }

    lemma ValidAgain(was: seq<CNetMessage>, msg: CNetMessage)
      requires vRecvMsg == was + [msg] && AllComplete(was) && msg !in was
      requires msg.Valid() && msg.Received() == [] && !msg.Complete()
      requires Parse(stream) == Parsed(FramesOf(was), [], true)
      ensures Valid()
    {
      hide Parse, FramesOf;
      assert Before() == was;
      msg.ReceivedParses();
    }

    /** Gives bytes to the current message; None when the peer is to be disconnected. */
    method Feed(msg: CNetMessage, pch: Bytes) returns (handled: Option<nat>)
      requires Valid() && vRecvMsg != [] && msg == vRecvMsg[|vRecvMsg| - 1] && !msg.Complete() && pch != []
      modifies msg, this`stream
      ensures handled.Some? ==>
                && Valid() && 0 < handled.value <= |pch| && stream == old(stream) + pch[..handled.value]
      ensures handled.None? ==>
                && AllComplete(Before()) && stream == old(stream) + pch
                && !Parse(stream).ok && Parse(stream).frames == FramesOf(Before())
    {
      hide Parse, Refuses, CNetMessage.Received, FramesOf, CNetMessage.AsFrame;
      ghost var begun := msg.Received();
      ghost var frames := FramesOf(Before());
      msg.ReceivedParses();
      FramesBehind(frames, begun);
      assert Parse(stream) == Parsed(frames, begun, true);
      handled := msg.Absorb(pch);
      assert FramesOf(Before()) == frames;
      if handled.None? {
        RefusedParses(begun, pch);
        ParseMore(stream, pch);
        stream := stream + pch;
      } else {
        ParseMore(stream, pch[..handled.value]);
        stream := stream + pch[..handled.value];
      }
    }

    lemma FramesBehind(frames: seq<Frame>, rest: Bytes)
      ensures Behind(frames, Parsed([], rest, true)) == Parsed(frames, rest, true)
      ensures Behind(frames, Parsed([], rest, false)) == Parsed(frames, rest, false)
    {
    }

    /** How many messages are complete. */
    ghost function Finished(): nat
      reads this, vRecvMsg
    {
      if vRecvMsg == [] then 0
      else |vRecvMsg| - 1 + if vRecvMsg[|vRecvMsg| - 1].Complete() then 1 else 0
    }

    lemma FinishedParses()
      requires Valid()
      ensures Parse(stream).ok && |Parse(stream).frames| == Finished()
    {
      hide Parse;
      NothingParses();
      if vRecvMsg != [] {
        vRecvMsg[|vRecvMsg| - 1].ReceivedParses();
      }
    }

    /** One turn of the loop. */
    method Turn(pch: Bytes) returns (handled: Option<nat>, completed: bool)
      requires Valid() && pch != []
      modifies this, set m | m in vRecvMsg
      ensures forall m | m in vRecvMsg :: m in old(vRecvMsg) || fresh(m)
      ensures handled.Some? ==>
                && Valid() && 0 < handled.value <= |pch| && stream == old(stream) + pch[..handled.value]
                && Finished() == old(Finished()) + if completed then 1 else 0
      ensures handled.None? ==>
                && AllComplete(Before()) && FramesOf(Before()) == Parse(stream).frames
                && stream == old(stream) + pch && !Parse(stream).ok && |Before()| == old(Finished())
    {
      hide Parse, FramesOf;
      var msg := CurrentMessage();
      assert Finished() == old(Finished()) == |Before()|;
      handled := Feed(msg, pch);
      completed := handled.Some? && msg.Complete();
    }

    /**
     * Takes the next bytes of the stream, in chunks of any size. The verdict and the
     * complete messages are those of parsing everything received as one piece.
     */
    method ReceiveMsgBytes(pch: Bytes) returns (ok: bool, complete: bool)
      requires Valid()
      modifies this, set m | m in vRecvMsg
      ensures stream == old(stream) + pch && ok == Parse(stream).ok
      ensures ok ==> Valid()
      ensures !ok ==> AllComplete(Before()) && FramesOf(Before()) == Parse(stream).frames
      ensures complete <==> |Parse(stream).frames| > |old(Parse(stream).frames)|
      ensures forall m | m in vRecvMsg :: m in old(vRecvMsg) || fresh(m)
    {
      hide Parse, Valid, FramesOf, AllComplete, Finished;
      complete := false;
      var rest := pch;
      FinishedParses();
      ghost var start := Finished();
      while rest != []
        invariant Valid() && stream + rest == old(stream) + pch
        invariant forall m | m in vRecvMsg :: m in old(vRecvMsg) || fresh(m)
        invariant Finished() >= start && (complete <==> Finished() > start)
        decreases |rest|
      {
        var handled, completed := Turn(rest);
        if handled.None? {
          return false, complete;
        }
        rest := rest[handled.value..];
        complete := complete || completed;
      }
      FinishedParses();
      assert stream == old(stream) + pch;
      ok := true;
    }

    /** Chunks of any sizes, until one is refused, give the messages and the verdict of their concatenation. */
    method ReceiveChunks(chunks: seq<Bytes>) returns (ok: bool)
      requires Valid() && stream == []
      modifies this, set m | m in vRecvMsg
      ensures ok == Parse(Joined(chunks)).ok
      ensures ok ==> Valid() && stream == Joined(chunks)
      ensures !ok ==> AllComplete(Before()) && FramesOf(Before()) == Parse(Joined(chunks)).frames
    {
      hide Parse, Valid, FramesOf, AllComplete;
      ok := true;
      FinishedParses();
      assert chunks[..0] == [] && chunks[..|chunks|] == chunks;
      for i := 0 to |chunks|
        invariant Valid() && stream == Joined(chunks[..i]) && Parse(stream).ok
        invariant forall m | m in vRecvMsg :: m in old(vRecvMsg) || fresh(m)
      {
        JoinedNext(chunks, i);
        var accepted, _ := ReceiveMsgBytes(chunks[i]);
        if !accepted {
          JoinedSplit(chunks, i + 1);
          ParseMore(stream, Joined(chunks[i + 1..]));
          return false;
        }
      }
    }
  }

  function Joined(chunks: seq<Bytes>): Bytes {
    if chunks == [] then [] else Joined(chunks[..|chunks| - 1]) + chunks[|chunks| - 1]
  }

  lemma JoinedNext(chunks: seq<Bytes>, i: nat)
    requires i < |chunks|
    ensures Joined(chunks[..i + 1]) == Joined(chunks[..i]) + chunks[i]
  {
    assert chunks[..i + 1][..i] == chunks[..i];
  }

  lemma {:induction false} JoinedSplit(chunks: seq<Bytes>, i: nat)
    requires i <= |chunks|
    ensures Joined(chunks) == Joined(chunks[..i]) + Joined(chunks[i..])
    decreases |chunks|
  {
    var n := |chunks| - 1;
    if i == |chunks| {
      assert chunks[..i] == chunks && Joined(chunks[i..]) == [];
    } else {
      JoinedSplit(chunks[..n], i);
      assert chunks[..n][..i] == chunks[..i] && chunks[..n][i..] == chunks[i..][..n - i];
    }
  }
}
