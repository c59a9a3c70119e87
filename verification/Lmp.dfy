/** Local message passing: the endpoint ring that the kernel fills and the receiver
    drains refines a queue of messages. */
module Lmp {

  // ---------- Messages and their encoding ----------

  datatype Msg = Msg(words: seq<nat>, cap: bool)

  /** The receive header: bit 0 of the first byte is the capability flag, the second
      byte the length in words. */
  function Header(len: nat, cap: bool): (h: nat) { (len % 256) * 256 + if cap then 1 else 0 }

  function HeaderLength(h: nat): nat { h / 256 % 256 }

  predicate HeaderCap(h: nat) { h % 2 == 1 }

  function Encode(m: Msg): (ws: seq<nat>) { [Header(|m.words|, m.cap)] + m.words }

  function EncodeAll(ms: seq<Msg>): seq<nat> { if ms == [] then [] else Encode(ms[0]) + EncodeAll(ms[1..]) }

  /** What a receiver takes from the front of the words in the ring. */
  function Decode(ws: seq<nat>): (m: Msg)
    requires ws != [] && HeaderLength(ws[0]) < |ws|
  {
    Msg(ws[1..HeaderLength(ws[0]) + 1], HeaderCap(ws[0]))
  }

  lemma HeaderRoundTrip(len: nat, cap: bool)
    ensures HeaderLength(Header(len, cap)) == len % 256 && (HeaderCap(Header(len, cap)) <==> cap)
  {}

  /** Whatever follows it, a message is received as it was sent exactly if its length
      fits into the byte that the header has for it. */
  lemma RoundTripIffShort(m: Msg, rest: seq<nat>)
    ensures var ws := Encode(m) + rest;
      && HeaderLength(ws[0]) < |ws|
      && (Decode(ws) == m <==> |m.words| < 256)
      && (Decode(ws) == m ==> ws[HeaderLength(ws[0]) + 1..] == rest)
  {
    var ws := Encode(m) + rest;
    HeaderRoundTrip(|m.words|, m.cap);
    var n := HeaderLength(ws[0]);
    assert n == |m.words| % 256 <= |m.words|;
    assert ws[1..n + 1] == m.words[..n];
  }

  /** A longer message is cut to its length modulo 256, and its next word is then
      taken for a header. */
  lemma LongMessageIsCut(m: Msg)
    requires |m.words| >= 256
    ensures var ws := Encode(m);
      && HeaderLength(ws[0]) < |ws|
      && Decode(ws) == Msg(m.words[..|m.words| % 256], m.cap)
      && ws[HeaderLength(ws[0]) + 1..] == m.words[|m.words| % 256..] != []
  {
    HeaderRoundTrip(|m.words|, m.cap);
    var ws := Encode(m);
    var n := HeaderLength(ws[0]);
    assert n == |m.words| % 256 < 256;
    assert ws[1..n + 1] == m.words[..n];
    assert ws[n + 1..] == m.words[n..];
  }

  lemma {:induction false} EncodeAllAppend(ms: seq<Msg>, m: Msg)
    ensures EncodeAll(ms + [m]) == EncodeAll(ms) + Encode(m)
  {
    hide Encode;
    if ms == [] {
      assert [m][1..] == [];
      assert EncodeAll([]) == [];
      assert [] + [m] == [m];
    } else {
      assert (ms + [m])[1..] == ms[1..] + [m];
      EncodeAllAppend(ms[1..], m);
    }
  }

  // ---------- The ring ----------

  /** The words that have been delivered and not consumed. */
  ghost function Unread(s: seq<nat>, consumed: nat, delivered: nat): (r: seq<nat>)
    requires consumed < |s| && delivered < |s|
    ensures |r| == Used(|s|, consumed, delivered)
  {
    if delivered >= consumed then s[consumed..delivered] else s[consumed..] + s[..delivered]
  }

  function Used(n: nat, consumed: nat, delivered: nat): (r: nat)
    requires consumed < n && delivered < n
    ensures r < n
  {
    if delivered >= consumed then delivered - consumed else n - consumed + delivered
  }

  function Bump(n: nat, pos: nat): (r: nat)
    requires pos < n
    ensures r < n
  {
    if pos + 1 == n then 0 else pos + 1
  }

  lemma PushWord(s: seq<nat>, consumed: nat, pos: nat, x: nat)
    requires consumed < |s| && pos < |s| && Used(|s|, consumed, pos) + 1 < |s|
    ensures Unread(s[pos := x], consumed, Bump(|s|, pos)) == Unread(s, consumed, pos) + [x]
  {}

  lemma PopWord(s: seq<nat>, consumed: nat, delivered: nat)
    requires consumed < |s| && delivered < |s| && consumed != delivered
    ensures var u := Unread(s, consumed, delivered);
      u != [] && u[0] == s[consumed] && Unread(s, Bump(|s|, consumed), delivered) == u[1..]
  {}

  // ---------- The endpoint ----------

  datatype Err = Ok | NoTarget | EpStateInvalid | BufOverflow

  datatype Received = NoMsg | Insane | RecvOverflow(len: nat) | Got(msg: Msg)

  class Endpoint {
    /** Whether the receiver has set up a dispatcher and a buffer. */
    var present: bool
    var delivered: nat
    var consumed: nat
    const buf: array<nat>
    /** The messages that have been delivered and not received. */
    ghost var msgs: seq<Msg>

    constructor (n: nat)
      requires n > 0
      ensures Valid() && present && msgs == [] && buf.Length == n && fresh(buf)
    {
      present, delivered, consumed, msgs := true, 0, 0, [];
      buf := new nat[n];
    }

    /** The ring holds the messages and nothing else. */
    ghost predicate Valid()
      reads this, buf
    {
      InRange() && Words() == EncodeAll(msgs) && forall m :: m in msgs ==> |m.words| < 256
    }

    ghost predicate InRange()
      reads this
    {
      delivered < buf.Length && consumed < buf.Length
    }

    ghost function Words(): seq<nat>
      requires InRange()
      reads this, buf
    {
      Unread(buf[..], consumed, delivered)
    }

    /** lmp_can_deliver_payload. The positions are in memory of the receiver, so they
        are checked. */
    function CanDeliver(len: nat): (e: Err)
      reads this
      ensures e == Ok <==> present && InRange() && Used(buf.Length, consumed, delivered) + len + 1 < buf.Length
      ensures e == NoTarget <==> !present
      ensures e == EpStateInvalid <==> present && !InRange()
    {
      if !present then NoTarget
      else if delivered >= buf.Length || consumed >= buf.Length then EpStateInvalid
      else
        var space := if delivered >= consumed then buf.Length - (delivered - consumed) else consumed - delivered;
        if space <= len + 1 then BufOverflow else Ok
    }

    /** lmp_deliver_payload: all the words of the message are appended or none, and no
        word that has not been consumed is overwritten. */
    method DeliverPayload(payload: seq<nat>, captransfer: bool) returns (e: Err)
      modifies this`delivered, buf
      ensures e == old(CanDeliver(|payload|))
      ensures e != Ok ==> delivered == old(delivered) && buf[..] == old(buf[..])
      ensures e == Ok ==> InRange() && Words() == old(Words()) + Encode(Msg(payload, captransfer))
    {
      hide Header; hide Unread;
      e := CanDeliver(|payload|);
      if e != Ok { return; }
      ghost var was := Words();
      var h := Header(|payload|, captransfer);
      PushWord(buf[..], consumed, delivered, h);
      buf[delivered] := h;
      var pos := WritePayload(payload, Bump(buf.Length, delivered));
      assert was + [h] + payload == was + Encode(Msg(payload, captransfer));
      delivered := pos;
    }

    /** The copy loop, from `pos0` on, with room for all of it. */
    method WritePayload(payload: seq<nat>, pos0: nat) returns (pos: nat)
      requires InRange() && pos0 < buf.Length && Used(buf.Length, consumed, pos0) + |payload| < buf.Length
      modifies buf
      ensures pos < buf.Length && Unread(buf[..], consumed, pos) == old(Unread(buf[..], consumed, pos0)) + payload
    {
      hide Unread;
      pos := pos0;
      ghost var was := Unread(buf[..], consumed, pos);
      var i := 0;
      assert payload[..0] == [];
      while i < |payload|
        invariant i <= |payload| && pos < buf.Length
        invariant Unread(buf[..], consumed, pos) == was + payload[..i]
      {
        PushWord(buf[..], consumed, pos, payload[i]);
        assert payload[..i + 1] == payload[..i] + [payload[i]];
        buf[pos] := payload[i];
        pos := Bump(buf.Length, pos);
        i := i + 1;
      }
      assert payload[..i] == payload;
    }

    /** A kernel message is queued behind all others or refused. The receiver can tell the
        messages apart if and only if the length of this one fits its header. */
    method Send(payload: seq<nat>, captransfer: bool) returns (e: Err)
      requires Valid()
      modifies this`delivered, this`msgs, buf
      ensures e == old(CanDeliver(|payload|)) && InRange() && Words() == EncodeAll(msgs)
      ensures Valid() <==> e != Ok || |payload| < 256
      ensures msgs == if e == Ok then old(msgs) + [Msg(payload, captransfer)] else old(msgs)
    {
      hide Encode;
      e := DeliverPayload(payload, captransfer);
      if e == Ok {
        EncodeAllAppend(msgs, Msg(payload, captransfer));
        msgs := msgs + [Msg(payload, captransfer)];
      }
    }

    /** Equal positions mean an empty ring, never a full one. */
    lemma EmptyIffEqual()
      requires Valid()
      ensures delivered == consumed <==> msgs == []
    {
      hide Header;
    }

    /** lmp_endpoint_recv with room for `room` words: the oldest message comes out as
        it was sent, or stays where it is. */
    method Recv(room: nat) returns (r: Received)
      requires Valid()
      modifies this`consumed, this`msgs
      ensures Valid()
      ensures r == if old(msgs) == [] then NoMsg
                   else if |old(msgs)[0].words| > room then RecvOverflow(|old(msgs)[0].words|)
                   else Got(old(msgs)[0])
      ensures msgs == if r.Got? then old(msgs)[1..] else old(msgs)
    {
      hide EncodeAll; hide Encode; hide Header; hide HeaderLength; hide HeaderCap;
      EmptyIffEqual();
      if delivered == consumed { return NoMsg; }
      FrontMessage(msgs);
      PopWord(buf[..], consumed, delivered);
      var pos: nat := consumed;
      var h := buf[pos];
      var len := HeaderLength(h);
      if len >= buf.Length { return Insane; }
      if len > room { return RecvOverflow(len); }
      pos := Bump(buf.Length, pos);
      var words: seq<nat> := [];
      ghost var body := Words()[1..];
      while |words| < len
        invariant |words| <= len && pos < buf.Length && InRange() && consumed == old(consumed) && msgs == old(msgs)
        invariant words == body[..|words|] && Unread(buf[..], pos, delivered) == body[|words|..]
      {
        PopWord(buf[..], pos, delivered);
        assert body[..|words| + 1] == words + [body[|words|]];
        words := words + [buf[pos]];
        pos := Bump(buf.Length, pos);
      }
      consumed := pos;
      msgs := msgs[1..];
      r := Got(Msg(words, HeaderCap(h)));
    }
  }

  /** The front of a ring of short messages decodes to the first of them. */
  lemma FrontMessage(ms: seq<Msg>)
    requires ms != [] && |ms[0].words| < 256
    ensures var ws := EncodeAll(ms);
      && ws != [] && HeaderLength(ws[0]) == |ms[0].words| < |ws| && HeaderCap(ws[0]) == ms[0].cap
      && ws[1..][..|ms[0].words|] == ms[0].words
      && ws[1..][|ms[0].words|..] == EncodeAll(ms[1..])
  {
    hide Header; hide HeaderLength; hide HeaderCap;
    HeaderRoundTrip(|ms[0].words|, ms[0].cap);
    var rest := EncodeAll(ms[1..]);
    var ws := EncodeAll(ms);
    assert ws[1..] == ms[0].words + rest;
  }
}
