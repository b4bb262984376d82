/**
 Messages on a byte stream: a header of 24 bytes that gives the size of the data, then the data.
 What a receiver makes of a stream is defined byte by byte.
 */
module Wire {
  import opened Basics

  type Byte = x: nat | x < 256
  type Bytes = seq<Byte>

  const HEADER_SIZE: nat := 24
  const MAX_SIZE: nat := 0x0200_0000
  const MAX_PROTOCOL_MESSAGE_LENGTH: nat := 4 * 1000 * 1000

  /** Four bytes, lowest first. */
  function Le32(s: Bytes): nat
    requires |s| == 4
  {
    LittleEndian(s[0], s[1], s[2], s[3])
  }

  function ToLe32(n: nat): (s: Bytes)
    requires n < 0x1_0000_0000
    ensures |s| == 4 && Le32(s) == n
  {
    var b, c := n / 256, n / 256 / 256;
    [n % 256, b % 256, c % 256, c / 256]
  }

  /** The bytes of a number, lowest first. */
  lemma BytesOf(n: nat)
    requires n < 0x1_0000_0000
    ensures ToLe32(n) == [n % 0x100, n / 0x100 % 0x100, n / 0x1_0000 % 0x100, n / 0x100_0000]
  {
    assert n / 256 / 256 == n / 0x1_0000 && n / 0x1_0000 / 256 == n / 0x100_0000;
  }

  /** The size field of a header. */
  function SizeOf(hdr: Bytes): nat
    requires |hdr| == HEADER_SIZE
  {
    Le32(hdr[16..20])
  }

  /** A message as far as it has been received. */
  datatype Msg = Msg(hdr: Bytes, inData: bool, data: Bytes)

  predicate Complete(m: Msg) { m.inData && |m.hdr| == HEADER_SIZE && |m.data| == SizeOf(m.hdr) }

  const NewMsg := Msg([], false, [])

  datatype State = State(msgs: seq<Msg>, ok: bool)

  function Last(msgs: seq<Msg>): Msg
    requires msgs != []
  {
    msgs[|msgs| - 1]
  }

  function Replace(msgs: seq<Msg>, m: Msg): seq<Msg>
    requires msgs != []
  {
    msgs[..|msgs| - 1] + [m]
  }

  /** The list whose last message takes the next byte. */
  function Opened(msgs: seq<Msg>): (r: seq<Msg>)
    ensures r != []
  {
    if msgs == [] || Complete(Last(msgs)) then msgs + [NewMsg] else msgs
  }

  /** A header with its last byte opens the data, unless the size is beyond the limits. */
  function HeaderDone(msgs: seq<Msg>, hdr: Bytes): State
    requires msgs != []
  {
    if |hdr| < HEADER_SIZE then State(Replace(msgs, Msg(hdr, false, [])), true)
    else if |hdr| > HEADER_SIZE || SizeOf(hdr) > MAX_SIZE then State(Replace(msgs, Msg(hdr, false, [])), false)
    else State(Replace(msgs, Msg(hdr, true, [])), SizeOf(hdr) <= MAX_PROTOCOL_MESSAGE_LENGTH)
  }

  function Feed(s: State, b: Byte): State {
    if !s.ok then s
    else
      var msgs := Opened(s.msgs);
      var m := Last(msgs);
      if !m.inData then HeaderDone(msgs, m.hdr + [b]) else State(Replace(msgs, m.(data := m.data + [b])), true)
  }

  function FeedAll(s: State, bytes: Bytes): State
    decreases |bytes|
  {
    if bytes == [] then s else FeedAll(Feed(s, bytes[0]), bytes[1..])
  }

  /** How a stream is cut does not matter. */
  lemma {:induction false} FeedConcat(s: State, a: Bytes, b: Bytes)
    ensures FeedAll(s, a + b) == FeedAll(FeedAll(s, a), b)
    decreases |a|
  {
    if a == [] {
      assert a + b == b;
    } else {
      FeedConcat(Feed(s, a[0]), a[1..], b);
      assert (a + b)[0] == a[0] && (a + b)[1..] == a[1..] + b;
    }
  }

  /** Once failed, always failed. */
  lemma {:induction false} FeedFailed(s: State, a: Bytes)
    requires !s.ok
    ensures FeedAll(s, a) == s
    decreases |a|
  {
    if a != [] {
      FeedFailed(s, a[1..]);
    }
  }

  /** A stretch of bytes within a header. */
  lemma {:induction false} HeaderBulk(msgs: seq<Msg>, c: Bytes)
    requires msgs != [] && !Last(msgs).inData && |Last(msgs).hdr| < HEADER_SIZE && Last(msgs).data == []
    requires c != [] && |Last(msgs).hdr| + |c| <= HEADER_SIZE
    ensures FeedAll(State(msgs, true), c) == HeaderDone(msgs, Last(msgs).hdr + c)
    decreases |c|
  {
    hide SizeOf;
    var hdr := Last(msgs).hdr;
    var s := Feed(State(msgs, true), c[0]);
    assert Opened(msgs) == msgs;
    if |c| == 1 {
      assert c[1..] == [] && c == [c[0]];
    } else {
      assert |hdr + [c[0]]| < HEADER_SIZE;
      HeaderBulk(s.msgs, c[1..]);
      assert hdr + [c[0]] + c[1..] == hdr + c;
      assert s.msgs[..|msgs| - 1] == msgs[..|msgs| - 1];
    }
  }

  /** A stretch of bytes within the data. */
  lemma {:induction false} DataBulk(msgs: seq<Msg>, c: Bytes)
    requires msgs != [] && Last(msgs).inData && |Last(msgs).hdr| == HEADER_SIZE
    requires |Last(msgs).data| + |c| <= SizeOf(Last(msgs).hdr)
    ensures FeedAll(State(msgs, true), c) == State(Replace(msgs, Last(msgs).(data := Last(msgs).data + c)), true)
    decreases |c|
  {
    hide SizeOf;
    var m := Last(msgs);
    if c == [] {
      assert m.data + c == m.data && Replace(msgs, m) == msgs;
    } else {
      assert Opened(msgs) == msgs;
      var s := Feed(State(msgs, true), c[0]);
      DataBulk(s.msgs, c[1..]);
      assert m.data + [c[0]] + c[1..] == m.data + c;
      assert s.msgs[..|msgs| - 1] == msgs[..|msgs| - 1];
    }
  }

  // ---------- streams of whole messages ----------

  /** A message as it is sent: a header that states the size of the data. */
  ghost predicate Framed(m: Msg) { Complete(m) && |m.data| <= MAX_PROTOCOL_MESSAGE_LENGTH }

  function Stream(msgs: seq<Msg>): Bytes { if msgs == [] then [] else msgs[0].hdr + msgs[0].data + Stream(msgs[1..]) }

  lemma {:induction false} StreamConcat(a: seq<Msg>, b: seq<Msg>)
    ensures Stream(a + b) == Stream(a) + Stream(b)
    decreases |a|
  {
    if a == [] {
      assert a + b == b;
    } else {
      assert (a + b)[0] == a[0] && (a + b)[1..] == a[1..] + b;
      StreamConcat(a[1..], b);
    }
  }

  ghost predicate AllFramed(msgs: seq<Msg>) { forall i :: 0 <= i < |msgs| ==> Framed(msgs[i]) }

  /** The messages that are complete. */
  function Completed(msgs: seq<Msg>): seq<Msg> {
    if msgs == [] || Complete(Last(msgs)) then msgs else msgs[..|msgs| - 1]
  }

  /** The first byte opens a new message after complete ones. */
  lemma OpenFirst(msgs: seq<Msg>, c: Bytes)
    requires (msgs == [] || Complete(Last(msgs))) && c != []
    ensures FeedAll(State(msgs, true), c) == FeedAll(State(msgs + [NewMsg], true), c)
  {
    assert Opened(msgs) == msgs + [NewMsg] == Opened(msgs + [NewMsg]);
  }

  lemma WholeMessage(done: seq<Msg>, m: Msg)
    requires (done == [] || Complete(Last(done))) && Framed(m)
    ensures FeedAll(State(done, true), m.hdr + m.data) == State(done + [m], true)
  {
    hide SizeOf, FeedAll;
    var msgs := done + [NewMsg];
    OpenFirst(done, m.hdr + m.data);
    FeedConcat(State(msgs, true), m.hdr, m.data);
    HeaderBulk(msgs, m.hdr);
    assert [] + m.hdr == m.hdr && [] + m.data == m.data;
    var begun := Replace(msgs, Msg(m.hdr, true, []));
    DataBulk(begun, m.data);
    assert begun[..|done|] == done && msgs[..|done|] == done;
  }

  lemma PartMessage(done: seq<Msg>, m: Msg, p: Bytes)
    requires (done == [] || Complete(Last(done))) && Framed(m) && p < m.hdr + m.data
    ensures var s := FeedAll(State(done, true), p); s.ok && Completed(s.msgs) == done
  {
    hide SizeOf, FeedAll;
    if p == [] {
      FeedNone(State(done, true));
    } else {
      var msgs := done + [NewMsg];
      OpenFirst(done, p);
      if |p| < HEADER_SIZE {
        HeaderBulk(msgs, p);
        assert [] + p == p;
      } else {
        var rest := p[HEADER_SIZE..];
        assert p == m.hdr + rest && rest < m.data;
        FeedConcat(State(msgs, true), m.hdr, rest);
        HeaderBulk(msgs, m.hdr);
        assert [] + m.hdr == m.hdr && [] + rest == rest;
        var begun := Replace(msgs, Msg(m.hdr, true, []));
        DataBulk(begun, rest);
        assert begun[..|done|] == done;
      }
      assert msgs[..|done|] == done;
    }
  }

  lemma FeedNone(s: State)
    ensures FeedAll(s, []) == s
  {
  }

  /** From any part of a stream of messages the receiver completes the first of them, in order; from all of it, all. */
  lemma {:induction false} ReceivesPrefix(done: seq<Msg>, msgs: seq<Msg>, p: Bytes)
    requires (done == [] || Complete(Last(done))) && AllFramed(msgs) && p <= Stream(msgs)
    ensures var s := FeedAll(State(done, true), p);
            && s.ok && done <= Completed(s.msgs) <= done + msgs
            && (p == Stream(msgs) ==> s.msgs == done + msgs)
    decreases |msgs|
  {
    hide SizeOf, FeedAll, Framed;
    if msgs == [] {
      assert p == [];
      FeedNone(State(done, true));
      assert done + msgs == done;
    } else {
      FramedComplete(msgs[0]);
      var wire := msgs[0].hdr + msgs[0].data;
      if |p| < |wire| {
        assert p < wire;
        PartMessage(done, msgs[0], p);
      } else {
        var rest := p[|wire|..];
        assert p == wire + rest && rest <= Stream(msgs[1..]);
        WholeMessage(done, msgs[0]);
        FeedConcat(State(done, true), wire, rest);
        ReceivesPrefix(done + [msgs[0]], msgs[1..], rest);
        assert done + [msgs[0]] + msgs[1..] == done + msgs;
      }
    }
  }

  lemma FramedComplete(m: Msg)
    requires Framed(m)
    ensures Complete(m)
  {
  }

  lemma TooLongFails(done: seq<Msg>, m: Msg, rest: Bytes)
    requires (done == [] || Complete(Last(done))) && Complete(m) && |m.data| > MAX_PROTOCOL_MESSAGE_LENGTH
    ensures !FeedAll(State(done, true), m.hdr + rest).ok
  {
    hide SizeOf, FeedAll;
    var msgs := done + [NewMsg];
    OpenFirst(done, m.hdr + rest);
    FeedConcat(State(msgs, true), m.hdr, rest);
    HeaderBulk(msgs, m.hdr);
    assert [] + m.hdr == m.hdr;
    FeedFailed(FeedAll(State(msgs, true), m.hdr), rest);
  }

  /** A receiver takes a whole stream of well-formed messages exactly if none of them is too long. */
  lemma {:induction false} StreamOkIff(done: seq<Msg>, msgs: seq<Msg>)
    requires (done == [] || Complete(Last(done))) && forall i :: 0 <= i < |msgs| ==> Complete(msgs[i])
    ensures FeedAll(State(done, true), Stream(msgs)).ok <==> forall i :: 0 <= i < |msgs| ==> |msgs[i].data| <= MAX_PROTOCOL_MESSAGE_LENGTH
    decreases |msgs|
  {
    hide FeedAll, Complete;
    if msgs == [] {
      FeedNone(State(done, true));
    } else {
      var m, rest := msgs[0], Stream(msgs[1..]);
      if |m.data| > MAX_PROTOCOL_MESSAGE_LENGTH {
        TooLongFails(done, m, m.data + rest);
        assert m.hdr + (m.data + rest) == m.hdr + m.data + rest;
      } else {
        WholeMessage(done, m);
        FeedConcat(State(done, true), m.hdr + m.data, rest);
        StreamOkIff(done + [m], msgs[1..]);
        assert forall i :: 1 <= i < |msgs| ==> msgs[i] == msgs[1..][i - 1];
      }
    }
  }
}
