/**
 One connection: a receiver that cuts incoming bytes into messages, and a queue of outgoing
 buffers that a socket takes piece by piece.
 */
module NetFraming {
  import opened Wire

  // ---------- receiving ----------

  class NetMessage {
    var inData: bool
    var hdrbuf: Bytes
    var nHdrPos: nat
    var nMessageSize: nat
    var vRecv: Bytes
    var nDataPos: nat

    ghost predicate Valid()
      reads this
    {
      && |hdrbuf| == HEADER_SIZE && nHdrPos <= HEADER_SIZE && nDataPos <= |vRecv|
      && (inData ==> nHdrPos == HEADER_SIZE && nMessageSize == SizeOf(hdrbuf) && |vRecv| <= nMessageSize)
      && (!inData ==> nHdrPos < HEADER_SIZE && vRecv == [])
    }

    ghost function View(): Msg
      requires Valid()
      reads this
    {
      Msg(hdrbuf[..nHdrPos], inData, vRecv[..nDataPos])
    }

    constructor ()
      ensures Valid() && View() == NewMsg
    {
      inData, hdrbuf, nHdrPos, nMessageSize, vRecv, nDataPos := false, seq(HEADER_SIZE, _ => 0), 0, 0, [], 0;
    }

    predicate IsComplete()
      reads this
    {
      inData && nMessageSize == nDataPos
    }

    lemma CompleteView()
      requires Valid()
      ensures IsComplete() <==> Complete(View())
    {
      assert hdrbuf[..HEADER_SIZE] == hdrbuf;
    }

    lemma HeaderView()
      requires Valid()
      ensures |View().hdr| == nHdrPos && |View().data| == nDataPos && (inData ==> SizeOf(View().hdr) == nMessageSize)
    {
      assert hdrbuf[..HEADER_SIZE] == hdrbuf;
    }

    /** Take header bytes; the last one opens the data unless the size is too large. */
    method ReadHeader(pch: Bytes) returns (handled: int)
      requires Valid() && !inData && pch != []
      modifies this
      ensures handled <= |pch| && (handled < 0 ==> handled == -1) && handled != 0
      ensures var n := if HEADER_SIZE - old(nHdrPos) < |pch| then HEADER_SIZE - old(nHdrPos) else |pch|;
              var hdr := old(View()).hdr + pch[..n];
              && n > 0 && (|hdr| < HEADER_SIZE ==> handled == n && Valid() && View() == Msg(hdr, false, []))
              && (|hdr| == HEADER_SIZE && SizeOf(hdr) > MAX_SIZE ==> handled == -1)
              && (|hdr| == HEADER_SIZE && SizeOf(hdr) <= MAX_SIZE ==> handled == n && Valid() && View() == Msg(hdr, true, []) && nMessageSize == SizeOf(hdr))
    {
      var nRemaining := HEADER_SIZE - nHdrPos;
      var nCopy := if nRemaining < |pch| then nRemaining else |pch|;
      hdrbuf := hdrbuf[..nHdrPos] + pch[..nCopy] + hdrbuf[nHdrPos + nCopy..];
      nHdrPos := nHdrPos + nCopy;
      assert hdrbuf[..nHdrPos] == old(hdrbuf[..nHdrPos]) + pch[..nCopy];
      if nHdrPos < HEADER_SIZE {
        return nCopy;
      }
      assert hdrbuf[..nHdrPos] == hdrbuf;
      nMessageSize := SizeOf(hdrbuf);
      if nMessageSize > MAX_SIZE {
        return -1;
      }
      inData := true;
      return nCopy;
    }

    /** Take data bytes, with the buffer growing ahead of them but never beyond the message. */
    method ReadData(pch: Bytes) returns (handled: int)
      requires Valid() && inData && nDataPos < nMessageSize && pch != []
      modifies this
      ensures 0 < handled <= |pch| && Valid() && nMessageSize == old(nMessageSize)
      ensures handled == if nMessageSize - old(nDataPos) < |pch| then nMessageSize - old(nDataPos) else |pch|
      ensures View() == old(View()).(data := old(View()).data + pch[..handled])
    {
      var nRemaining := nMessageSize - nDataPos;
      var nCopy := if nRemaining < |pch| then nRemaining else |pch|;
      if |vRecv| < nDataPos + nCopy {
        var ahead := nDataPos + nCopy + 256 * 1024;
        var size := if nMessageSize < ahead then nMessageSize else ahead;
        vRecv := vRecv + seq(size - |vRecv|, _ => 0);
      }
      vRecv := vRecv[..nDataPos] + pch[..nCopy] + vRecv[nDataPos + nCopy..];
      nDataPos := nDataPos + nCopy;
      assert vRecv[..nDataPos] == old(vRecv[..nDataPos]) + pch[..nCopy];
      return nCopy;
    }
  }

  ghost predicate AllValid(l: seq<NetMessage>)
    reads l
  {
    forall i :: 0 <= i < |l| ==> l[i].Valid()
  }

  ghost function Views(l: seq<NetMessage>): seq<Msg>
    requires AllValid(l)
    reads l
  {
    seq(|l|, i requires 0 <= i < |l| reads l requires AllValid(l) => l[i].View())
  }

  /** One connection's incoming messages; only the last may be incomplete. */
  class Node {
    var vRecvMsg: seq<NetMessage>

    ghost predicate Valid()
      reads this, vRecvMsg
    {
      && AllValid(vRecvMsg) && (forall m :: m in vRecvMsg && m.inData ==> m.nMessageSize <= MAX_PROTOCOL_MESSAGE_LENGTH)
      && (forall i, j :: 0 <= i < j < |vRecvMsg| ==> vRecvMsg[i] != vRecvMsg[j])
      && (forall i :: 0 <= i < |vRecvMsg| - 1 ==> vRecvMsg[i].IsComplete())
    }

    ghost function Contents(): seq<Msg>
      requires Valid()
      reads this, vRecvMsg
    {
      Views(vRecvMsg)
    }

    constructor ()
      ensures Valid() && Contents() == []
    {
      vRecvMsg := [];
    }

    /** Take up bytes into the current message, opening one if there is none; fails if the size is too large. */
    method Take(pch: Bytes) returns (good: bool, handled: nat, done: bool)
      requires Valid() && pch != []
      modifies this, vRecvMsg
      ensures good ==> Valid() && 0 < handled <= |pch| && vRecvMsg != []
      ensures good ==> FeedAll(State(old(Contents()), true), pch[..handled]) == State(Contents(), true)
      ensures good ==> |Completed(Contents())| == |Completed(old(Contents()))| + if done then 1 else 0
      ensures !good ==> !FeedAll(State(old(Contents()), true), pch).ok
      ensures forall i :: 0 <= i < |vRecvMsg| ==> vRecvMsg[i] in old(vRecvMsg) || fresh(vRecvMsg[i])
    {
      hide FeedAll, SizeOf, Complete, Views, AllValid;
      ghost var was := Contents();
      var begun := OpenLast();
      if begun {
        OpenFirst(was, pch);
      }
      LastView(vRecvMsg);
      good, handled := TakeLast(pch);
      done := false;
      if good {
        if begun {
          OpenFirst(was, pch[..handled]);
        }
        LastView(vRecvMsg);
        vRecvMsg[|vRecvMsg| - 1].CompleteView();
        done := vRecvMsg[|vRecvMsg| - 1].IsComplete();
        CompletedCount(was, Contents());
      }
    }

    /** The same for a list whose last message is incomplete. */
    method TakeLast(pch: Bytes) returns (good: bool, handled: nat)
      requires Valid() && pch != [] && vRecvMsg != [] && !vRecvMsg[|vRecvMsg| - 1].IsComplete()
      modifies vRecvMsg[|vRecvMsg| - 1]
      ensures good ==> Valid() && 0 < handled <= |pch|
      ensures good ==> FeedAll(State(old(Contents()), true), pch[..handled]) == State(Contents(), true)
      ensures !good ==> !FeedAll(State(old(Contents()), true), pch).ok
    {
      hide SizeOf, FeedAll, HeaderDone, Complete;
      var msg := vRecvMsg[|vRecvMsg| - 1];
      ghost var msgs, m := Contents(), msg.View();
      msg.CompleteView();
      msg.HeaderView();
      var h: int;
      ghost var n: nat;
      if !msg.inData {
        n := if HEADER_SIZE - |m.hdr| < |pch| then HEADER_SIZE - |m.hdr| else |pch|;
        h := msg.ReadHeader(pch);
        HeaderBulk(msgs, pch[..n]);
        TooLarge(msgs, pch, n);
        HeaderIs(msgs, m.hdr + pch[..n]);
      } else {
        n := if msg.nMessageSize - msg.nDataPos < |pch| then msg.nMessageSize - msg.nDataPos else |pch|;
        h := msg.ReadData(pch);
        DataBulk(msgs, pch[..n]);
      }
      if h < 0 {
        return false, 0;
      }
      if msg.inData && msg.nMessageSize > MAX_PROTOCOL_MESSAGE_LENGTH {
        return false, 0;
      }
      assert Contents() == Replace(msgs, msg.View());
      return true, h;
    }

    method OpenLast() returns (begun: bool)
      requires Valid()
      modifies this
      ensures Valid() && Contents() == Opened(old(Contents())) && vRecvMsg != [] && !vRecvMsg[|vRecvMsg| - 1].IsComplete()
      ensures begun <==> old(Contents()) == [] || Complete(Last(old(Contents())))
      ensures vRecvMsg == old(vRecvMsg) || (fresh(vRecvMsg[|vRecvMsg| - 1]) && vRecvMsg[..|vRecvMsg| - 1] == old(vRecvMsg))
    {
      hide SizeOf;
      if vRecvMsg != [] {
        vRecvMsg[|vRecvMsg| - 1].CompleteView();
      }
      if vRecvMsg == [] || vRecvMsg[|vRecvMsg| - 1].IsComplete() {
        var m := new NetMessage();
        vRecvMsg := vRecvMsg + [m];
        m.CompleteView();
        begun := true;
      } else {
        begun := false;
      }
    }

    /** Receive a chunk of bytes, as if byte by byte; on failure the peer is dropped. */
    method ReceiveMsgBytes(pch: Bytes) returns (ok: bool, complete: bool)
      requires Valid()
      modifies this, vRecvMsg
      ensures ok <==> FeedAll(State(old(Contents()), true), pch).ok
      ensures ok ==> Valid() && FeedAll(State(old(Contents()), true), pch) == State(Contents(), true)
      ensures ok ==> (complete <==> |Completed(Contents())| > |Completed(old(Contents()))|)
      ensures forall i :: 0 <= i < |vRecvMsg| ==> vRecvMsg[i] in old(vRecvMsg) || fresh(vRecvMsg[i])
    {
      hide FeedAll, Completed;
      ghost var was := State(Contents(), true);
      complete := false;
      var pos := 0;
      FeedNone(was);
      assert pch[..0] == [];
      while pos < |pch|
        invariant pos <= |pch| && Valid() && FeedAll(was, pch[..pos]) == State(Contents(), true)
        invariant |Completed(Contents())| >= |Completed(was.msgs)| && (complete <==> |Completed(Contents())| > |Completed(was.msgs)|)
        invariant forall i :: 0 <= i < |vRecvMsg| ==> vRecvMsg[i] in old(vRecvMsg) || fresh(vRecvMsg[i])
      {
        ghost var before := State(Contents(), true);
        var rest := pch[pos..];
        FeedConcat(was, pch[..pos], rest);
        assert pch[..pos] + rest == pch;
        var good, handled, done := Take(rest);
        if !good {
          return false, complete;
        }
        complete := complete || done;
        FeedConcat(was, pch[..pos], rest[..handled]);
        assert pch[..pos] + rest[..handled] == pch[..pos + handled];
        pos := pos + handled;
      }
      assert pch[..pos] == pch;
      return true, complete;
    }
  }

  lemma LastView(l: seq<NetMessage>)
    requires AllValid(l) && l != []
    ensures l[|l| - 1].Valid() && |Views(l)| == |l| && Last(Views(l)) == l[|l| - 1].View()
  {
  }

  lemma CompletedCount(was: seq<Msg>, now: seq<Msg>)
    requires now != [] && |now| == |Opened(was)|
    ensures |Completed(now)| == |Completed(was)| + if Complete(Last(now)) then 1 else 0
  {
    hide Complete;
  }

  lemma HeaderIs(msgs: seq<Msg>, hdr: Bytes)
    requires msgs != [] && |hdr| <= HEADER_SIZE
    ensures |hdr| < HEADER_SIZE ==> HeaderDone(msgs, hdr) == State(Replace(msgs, Msg(hdr, false, [])), true)
    ensures |hdr| == HEADER_SIZE && SizeOf(hdr) > MAX_PROTOCOL_MESSAGE_LENGTH ==> !HeaderDone(msgs, hdr).ok
    ensures |hdr| == HEADER_SIZE && SizeOf(hdr) <= MAX_PROTOCOL_MESSAGE_LENGTH ==>
              HeaderDone(msgs, hdr) == State(Replace(msgs, Msg(hdr, true, [])), true)
  {
    hide SizeOf;
  }

  /** A header with a size beyond the limits fails whatever follows. */
  lemma TooLarge(msgs: seq<Msg>, pch: Bytes, n: nat)
    requires 0 < n <= |pch| && msgs != []
    requires FeedAll(State(msgs, true), pch[..n]) == HeaderDone(msgs, Last(msgs).hdr + pch[..n])
    ensures !HeaderDone(msgs, Last(msgs).hdr + pch[..n]).ok ==> !FeedAll(State(msgs, true), pch).ok
  {
    hide SizeOf, FeedAll, HeaderDone;
    var s := FeedAll(State(msgs, true), pch[..n]);
    FeedConcat(State(msgs, true), pch[..n], pch[n..]);
    assert pch[..n] + pch[n..] == pch;
    if !s.ok {
      FeedFailed(s, pch[n..]);
    }
  }

  // ---------- sending ----------

  function Concat(bufs: seq<Bytes>): Bytes { if bufs == [] then [] else bufs[0] + Concat(bufs[1..]) }

  function TotalSize(bufs: seq<Bytes>): nat { if bufs == [] then 0 else |bufs[0]| + TotalSize(bufs[1..]) }

  lemma {:induction false} Append(bufs: seq<Bytes>, b: Bytes)
    ensures Concat(bufs + [b]) == Concat(bufs) + b && TotalSize(bufs + [b]) == TotalSize(bufs) + |b|
    decreases |bufs|
  {
    if bufs == [] {
      assert [b][1..] == [] && bufs + [b] == [b];
    } else {
      assert (bufs + [b])[0] == bufs[0] && (bufs + [b])[1..] == bufs[1..] + [b];
      Append(bufs[1..], b);
    }
  }

  /** What is queued: buffers without an empty one, and how much of the first was taken. */
  ghost predicate Queue(bufs: seq<Bytes>, offset: nat) {
    && (forall i :: 0 <= i < |bufs| ==> bufs[i] != [])
    && (if bufs == [] then offset == 0 else offset < |bufs[0]|)
  }

  /** All bytes of the pushed messages are sent or queued, in order. */
  ghost predicate Accounted(pushed: seq<Msg>, sent: Bytes, bufs: seq<Bytes>, offset: nat) {
    Queue(bufs, offset) && offset <= |Concat(bufs)| && sent + Concat(bufs)[offset..] == Stream(pushed)
  }

  /** The socket takes `n` more bytes of the first buffer. */
  lemma SendStep(pushed: seq<Msg>, sent: Bytes, bufs: seq<Bytes>, offset: nat, n: nat)
    requires Accounted(pushed, sent, bufs, offset) && bufs != [] && 0 < n && offset + n <= |bufs[0]|
    ensures var sent' := sent + bufs[0][offset..offset + n];
            if offset + n == |bufs[0]| then Accounted(pushed, sent', bufs[1..], 0) else Accounted(pushed, sent', bufs, offset + n)
  {
    var all := Concat(bufs);
    var part := bufs[0][offset..offset + n];
    assert all[offset..] == part + all[offset + n..];
    if offset + n == |bufs[0]| {
      assert all[offset + n..] == Concat(bufs[1..]) == Concat(bufs[1..])[0..];
    }
    assert sent + part + all[offset + n..] == sent + (part + all[offset + n..]);
  }

  lemma PushStep(pushed: seq<Msg>, sent: Bytes, bufs: seq<Bytes>, offset: nat, m: Msg, bufs': seq<Bytes>)
    requires Accounted(pushed, sent, bufs, offset) && m.hdr != []
    requires bufs' == if m.data == [] then bufs + [m.hdr] else bufs + [m.hdr] + [m.data]
    ensures Accounted(pushed + [m], sent, bufs', offset) && TotalSize(bufs') == TotalSize(bufs) + |m.hdr| + |m.data|
  {
    hide Concat, TotalSize, Stream;
    AppendWire(bufs, m, bufs');
    var wire, left := m.hdr + m.data, Concat(bufs)[offset..];
    assert (Concat(bufs) + wire)[offset..] == left + wire;
    StreamConcat(pushed, [m]);
    OneMessage(m);
    assert sent + (left + wire) == sent + left + wire;
  }

  lemma AppendWire(bufs: seq<Bytes>, m: Msg, bufs': seq<Bytes>)
    requires bufs' == if m.data == [] then bufs + [m.hdr] else bufs + [m.hdr] + [m.data]
    ensures Concat(bufs') == Concat(bufs) + (m.hdr + m.data) && TotalSize(bufs') == TotalSize(bufs) + |m.hdr| + |m.data|
  {
    hide Concat, TotalSize;
    Append(bufs, m.hdr);
    if m.data == [] {
      assert m.hdr + m.data == m.hdr;
    } else {
      Append(bufs + [m.hdr], m.data);
      assert Concat(bufs) + m.hdr + m.data == Concat(bufs) + (m.hdr + m.data);
    }
  }

  lemma OneMessage(m: Msg)
    ensures Stream([m]) == m.hdr + m.data
  {
    assert [m][1..] == [];
  }

  class SendQueue {
    const nSendBufferMaxSize: nat
    var vSendMsg: seq<Bytes>
    var nSendOffset: nat
    var nSendSize: nat
    var fPauseSend: bool
    /** The messages pushed and the bytes the socket took. */
    ghost var pushed: seq<Msg>
    ghost var sent: Bytes

    ghost predicate Valid()
      reads this
    {
      && Accounted(pushed, sent, vSendMsg, nSendOffset) && nSendSize == TotalSize(vSendMsg)
      && (fPauseSend <==> nSendSize > nSendBufferMaxSize)
    }

    constructor (nSendBufferMaxSize: nat)
      ensures Valid() && pushed == [] && sent == []
    {
      this.nSendBufferMaxSize := nSendBufferMaxSize;
      vSendMsg, nSendOffset, nSendSize, fPauseSend := [], 0, 0, false;
      pushed, sent := [], [];
    }

    /** Hand buffers to the socket until it takes no more; each call of it may take any part of a buffer, or fail. */
    method SocketSendData() returns (nSentSize: nat)
      requires Valid()
      modifies this`vSendMsg, this`nSendOffset, this`nSendSize, this`fPauseSend, this`sent
      ensures Valid() && old(sent) <= sent && |sent| == |old(sent)| + nSentSize
    {
      hide Accounted, TotalSize, Complete;
      var it := 0;
      nSentSize := 0;
      assert vSendMsg[0..] == vSendMsg;
      while it != |vSendMsg|
        invariant it <= |vSendMsg| && vSendMsg == old(vSendMsg) && Accounted(pushed, sent, vSendMsg[it..], nSendOffset)
        invariant nSendSize == TotalSize(vSendMsg[it..]) && (fPauseSend <==> nSendSize > nSendBufferMaxSize)
        invariant old(sent) <= sent && |sent| == |old(sent)| + nSentSize
        decreases |vSendMsg| - it
      {
        var data := vSendMsg[it];
        FirstBuffer(pushed, sent, vSendMsg[it..], nSendOffset);
        assert |data| > nSendOffset;
        var closed: bool := *;
        if closed {
          break;
        }
        var nBytes: int :| -1 <= nBytes <= |data| - nSendOffset;
        if nBytes > 0 {
          SendStep(pushed, sent, vSendMsg[it..], nSendOffset, nBytes);
          sent := sent + data[nSendOffset..nSendOffset + nBytes];
          nSendOffset := nSendOffset + nBytes;
          nSentSize := nSentSize + nBytes;
          if nSendOffset == |data| {
            nSendOffset := 0;
            SizeNext(vSendMsg[it..]);
            assert vSendMsg[it..][1..] == vSendMsg[it + 1..];
            nSendSize := nSendSize - |data|;
            fPauseSend := nSendSize > nSendBufferMaxSize;
            it := it + 1;
          } else {
            break;
          }
        } else {
          break;
        }
      }
      if it == |vSendMsg| {
        Emptied(pushed, sent, vSendMsg[it..], nSendOffset);
        assert nSendOffset == 0;
        assert nSendSize == 0;
      }
      vSendMsg := vSendMsg[it..];
    }

    /**
     Queue a message: a header with the start bytes, the command, the size in 32 bits and the
     checksum, then the data if there is any.
     */
    method PushMessage(start: Bytes, command: Bytes, checksum: Bytes, data: Bytes) returns (nBytesSent: nat)
      requires Valid() && |start| == 4 && |command| == 12 && |checksum| == 4
      modifies this
      ensures Valid() && old(sent) <= sent && |sent| == |old(sent)| + nBytesSent
      ensures pushed == old(pushed) + [Msg(start + command + ToLe32(|data| % 0x1_0000_0000) + checksum, true, data)]
    {
      hide Accounted, TotalSize, Complete;
      var serializedHeader := start + command + ToLe32(|data| % 0x1_0000_0000) + checksum;
      ghost var m := Msg(serializedHeader, true, data);
      var optimisticSend := vSendMsg == [];
      ghost var before := vSendMsg;
      nSendSize := nSendSize + (|data| + HEADER_SIZE);
      if nSendSize > nSendBufferMaxSize {
        fPauseSend := true;
      }
      vSendMsg := vSendMsg + [serializedHeader];
      if |data| != 0 {
        vSendMsg := vSendMsg + [data];
      }
      PushStep(pushed, sent, before, nSendOffset, m, vSendMsg);
      pushed := pushed + [m];
      nBytesSent := 0;
      if optimisticSend {
        nBytesSent := SocketSendData();
      }
    }
  }

  lemma FirstBuffer(pushed: seq<Msg>, sent: Bytes, bufs: seq<Bytes>, offset: nat)
    requires Accounted(pushed, sent, bufs, offset) && bufs != []
    ensures offset < |bufs[0]|
  {
  }

  lemma Emptied(pushed: seq<Msg>, sent: Bytes, bufs: seq<Bytes>, offset: nat)
    requires Accounted(pushed, sent, bufs, offset) && bufs == []
    ensures offset == 0 && TotalSize(bufs) == 0
  {
  }

  lemma SizeNext(bufs: seq<Bytes>)
    requires bufs != []
    ensures TotalSize(bufs) == |bufs[0]| + TotalSize(bufs[1..])
  {
  }

  /** The header states the size of its data exactly when the size fits 32 bits. */
  lemma HeaderStates(start: Bytes, command: Bytes, checksum: Bytes, data: Bytes)
    requires |start| == 4 && |command| == 12 && |checksum| == 4
    ensures Complete(Msg(start + command + ToLe32(|data| % 0x1_0000_0000) + checksum, true, data)) <==> |data| < 0x1_0000_0000
  {
    hide ToLe32, Le32;
    assert (start + command + ToLe32(|data| % 0x1_0000_0000) + checksum)[16..20] == ToLe32(|data| % 0x1_0000_0000);
  }

  /**
   End to end: however sends and receives were cut, what the receiver has completed is a prefix of
   what was pushed, and all of it once all bytes have arrived, if no message is too long.
   */
  lemma EndToEnd(q: SendQueue, received: Bytes)
    requires q.Valid() && AllFramed(q.pushed) && received <= q.sent
    ensures var s := FeedAll(State([], true), received);
            && s.ok && Completed(s.msgs) <= q.pushed
            && (q.vSendMsg == [] && received == q.sent ==> s.msgs == q.pushed)
  {
    hide FeedAll, Completed, Framed;
    assert received <= Stream(q.pushed);
    ReceivesPrefix([], q.pushed, received);
    assert [] + q.pushed == q.pushed;
    if q.vSendMsg == [] {
      assert Concat(q.vSendMsg)[q.nSendOffset..] == [];
    }
  }

  /** Receive any cut of the bytes that were sent: no failure, and a prefix of the pushed messages in order. */
  method Deliver(q: SendQueue, chunks: seq<Bytes>) returns (node: Node)
    requires q.Valid() && AllFramed(q.pushed) && Concat(chunks) <= q.sent
    ensures node.Valid() && Completed(node.Contents()) <= q.pushed
    ensures q.vSendMsg == [] && Concat(chunks) == q.sent ==> node.Contents() == q.pushed
  {
    hide FeedAll, Completed, Framed, Concat, Accounted;
    node := new Node();
    var none := State([], true);
    FeedNone(none);
    EmptyConcat(chunks);
    for i := 0 to |chunks|
      invariant node.Valid() && fresh(node) && q.Valid() && FeedAll(none, Concat(chunks[..i])) == State(node.Contents(), true)
      invariant forall k :: 0 <= k < |node.vRecvMsg| ==> fresh(node.vRecvMsg[k])
    {
      assert chunks[..i + 1] == chunks[..i] + [chunks[i]];
      Append(chunks[..i], chunks[i]);
      ConcatPrefix(chunks, i + 1);
      FeedConcat(none, Concat(chunks[..i]), chunks[i]);
      EndToEnd(q, Concat(chunks[..i + 1]));
      var ok, _ := node.ReceiveMsgBytes(chunks[i]);
      assert ok;
    }
    assert chunks[..|chunks|] == chunks;
    EndToEnd(q, Concat(chunks));
  }

  lemma EmptyConcat(chunks: seq<Bytes>)
    ensures Concat(chunks[..0]) == []
  {
  }

  lemma {:induction false} ConcatPrefix(chunks: seq<Bytes>, i: nat)
    requires i <= |chunks|
    ensures Concat(chunks[..i]) <= Concat(chunks)
    decreases i
  {
    if i > 0 {
      assert chunks[..i][0] == chunks[0] && chunks[..i][1..] == chunks[1..][..i - 1];
      ConcatPrefix(chunks[1..], i - 1);
    }
  }
}
