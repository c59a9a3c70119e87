/** The packet layer of the debugger stub: framing, checksums, acknowledgement and
    retransmission over a serial line. */
module GdbStub {
  const BUFMAX: nat := 512
  const NUL: char := 0 as char

  // ---------- Frames ----------

  /** fromhex, with -1 for any other character. */
  function FromHex(ch: char): (v: int)
    ensures -1 <= v < 16
  {
    if 'a' <= ch <= 'f' then ch as int - 'a' as int + 10
    else if '0' <= ch <= '9' then ch as int - '0' as int
    else if 'A' <= ch <= 'F' then ch as int - 'A' as int + 10
    else -1
  }

  function ToHex(i: nat): (ch: char)
    requires i < 16
    ensures FromHex(ch) == i
  {
    "0123456789abcdef"[i]
  }

  /** Both cases are read, and nothing else is. */
  lemma FromHexMeans(ch: char)
    ensures forall i :: 0 <= i < 16 ==> FromHex("0123456789abcdef"[i]) == i && FromHex("0123456789ABCDEF"[i]) == i
    ensures FromHex(ch) == -1 <==> ch !in "0123456789abcdefABCDEF"
  {
    var s := "0123456789abcdefABCDEF";
    if '0' <= ch <= '9' { assert s[ch as int - '0' as int] == ch; }
    if 'a' <= ch <= 'f' { assert s[ch as int - 'a' as int + 10] == ch; }
    if 'A' <= ch <= 'F' { assert s[ch as int - 'A' as int + 16] == ch; }
  }

  function Checksum(s: string): (c: nat)
    ensures c < 256
  {
    if s == [] then 0 else (Checksum(s[..|s| - 1]) + s[|s| - 1] as nat) % 256
  }

  /** The checksum that two received characters stand for, in 8-bit arithmetic. */
  function Sent(a: char, b: char): (c: nat)
    ensures c < 256
  {
    (FromHex(a) * 16 + FromHex(b)) % 256
  }

  function Frame(p: string): string {
    "$" + p + "#" + [ToHex(Checksum(p) / 16), ToHex(Checksum(p) % 16)]
  }

  /** What a frame can carry. */
  predicate Plain(p: string) { |p| <= BUFMAX - 2 && NoMarks(p) }

  predicate NoMarks(p: string) { forall i :: 0 <= i < |p| ==> p[i] != '$' && p[i] != '#' }

  /** Noise on the line; it may well look like the start of a packet. */
  predicate NoHash(s: string) { forall i :: 0 <= i < |s| ==> s[i] != '#' }

  // ---------- Receiving ----------

  /** The stub still waits for input, or it has a packet; in either case what it has
      replied so far, and in the latter the input behind the packet. */
  datatype Outcome = Blocked(replies: string) | Packet(payload: string, replies: string, rest: string) {
    function After(r: string): Outcome { this.(replies := r + replies) }

    lemma AfterNothing()
      ensures After("") == this
    {}

    lemma AfterTwice(r: string, s: string)
      ensures After(r).After(s) == After(s + r)
    {
      assert s + (r + replies) == s + r + replies;
    }
  }

  /** Waiting for the start of a packet. */
  function Receive(input: string): (o: Outcome)
    decreases |input|, 0
  {
    if input == [] then Blocked("")
    else if input[0] != '$' then Receive(input[1..])
    else Collect(input[1..], "")
  }

  /** Inside a packet of which `got` has been read. */
  function Collect(input: string, got: string): (o: Outcome)
    decreases |input|, 1
  {
    if |got| >= BUFMAX - 1 then Receive(input)
    else if input == [] then Blocked("")
    else if input[0] == '$' then Collect(input[1..], "")
    else if input[0] == '#' then
      if |input| < 3 then Blocked("")
      else if Checksum(got) != Sent(input[1], input[2]) then Receive(input[3..]).After("-")
      else Packet(got, "+", input[3..])
    else Collect(input[1..], got + [input[0]])
  }

  /** Waits for the start character. */
  method SkipToStart(input: string, i0: nat) returns (i: nat)
    requires i0 <= |input|
    ensures i0 <= i <= |input| && Receive(input[i0..]) == Receive(input[i..]) && (i < |input| ==> input[i] == '$')
  {
    hide Collect;
    i := i0;
    while i < |input| && input[i] != '$'
      invariant i0 <= i <= |input| && Receive(input[i0..]) == Receive(input[i..])
    {
      assert input[i..][1..] == input[i + 1..];
      i := i + 1;
    }
  }

  /** Reads the body into the buffer; `ch` is the last character read. */
  method ReadBody(input: string, i0: nat, buffer: array<char>) returns (i: nat, len: nat, checksum: nat, ch: char)
    requires i0 <= |input| && buffer.Length == BUFMAX
    modifies buffer
    ensures i0 <= i <= |input| && len < BUFMAX && checksum == Checksum(buffer[..len])
    ensures ch == '#' ==>
      i > i0 && input[i - 1] == '#' && len < BUFMAX - 1
        && Collect(input[i0..], "") == Collect(input[i - 1..], buffer[..len])
    ensures ch != '#' ==>
      (len == BUFMAX - 1 || i == |input|) && Collect(input[i0..], "") == Collect(input[i..], buffer[..len])
  {
    hide Receive; hide Sent; hide Checksum;
    i, len, checksum, ch := i0, 0, 0, NUL;
    ChecksumEmpty();
    assert buffer[..0] == "";
    while len < BUFMAX - 1 && i < |input|
      invariant i0 <= i <= |input| && len < BUFMAX && checksum == Checksum(buffer[..len]) && ch != '#'
      invariant Collect(input[i0..], "") == Collect(input[i..], buffer[..len])
      decreases |input| - i
    {
      assert input[i..][1..] == input[i + 1..];
      ch := input[i];
      i := i + 1;
      if ch == '$' {
        len, checksum := 0, 0;
        assert buffer[..0] == "";
      } else if ch == '#' {
        return;
      } else {
        ghost var was := buffer[..len];
        ChecksumMore(was, ch);
        buffer[len] := ch;
        assert buffer[..len + 1] == was + [ch];
        checksum := (checksum + ch as nat) % 256;
        len := len + 1;
      }
    }
  }

  lemma ChecksumEmpty()
    ensures Checksum("") == 0
  {}

  lemma ChecksumMore(s: string, c: char)
    ensures Checksum(s + [c]) == (Checksum(s) + c as nat) % 256
  {
    assert (s + [c])[..|s|] == s;
  }

  datatype Attempt = Wait | Again | Done

  /** One attempt at a packet, with the reply it sends. */
  method TryPacket(input: string, i0: nat, buffer: array<char>) returns (a: Attempt, len: nat, reply: string, i: nat)
    requires i0 <= |input| && buffer.Length == BUFMAX
    modifies buffer
    ensures i0 <= i <= |input| && len < BUFMAX
    ensures a == Wait ==> Receive(input[i0..]) == Blocked("") && reply == ""
    ensures a == Again ==> i0 < i && Receive(input[i0..]) == Receive(input[i..]).After(reply)
    ensures a == Done ==>
      buffer[len] == NUL && reply == "+" && Receive(input[i0..]) == Packet(buffer[..len], "+", input[i..])
  {
    hide Receive; hide Sent; hide Checksum; hide Collect; hide Outcome.After;
    len, reply := 0, "";
    i := SkipToStart(input, i0);
    ReceiveStep(input, i);
    if i == |input| { return Wait, len, reply, i; }
    var checksum, ch;
    i, len, checksum, ch := ReadBody(input, i + 1, buffer);
    ghost var got := buffer[..len];
    buffer[len] := NUL;
    assert buffer[..len] == got;
    if ch == '#' {
      CollectStep(input, i - 1, got);
      if i + 2 > |input| { return Wait, len, reply, i; }
      i := i + 2;
      if checksum != Sent(input[i - 2], input[i - 1]) {
        a, reply := Again, "-";
      } else {
        a, reply := Done, "+";
      }
    } else {
      CollectStep(input, i, got);
      Receive(input[i..]).AfterNothing();
      a := if len < BUFMAX - 1 then Wait else Again;
    }
  }

  /** getpacket on the input received so far. It returns with a packet in the buffer,
      or it has used up the input and would wait for more. */
  method GetPacket(input: string, buffer: array<char>) returns (ok: bool, len: nat, replies: string, i: nat)
    requires buffer.Length == BUFMAX
    modifies buffer
    ensures i <= |input| && (ok <==> Receive(input).Packet?) && replies == Receive(input).replies
    ensures ok ==>
      len < BUFMAX && buffer[len] == NUL && buffer[..len] == Receive(input).payload && input[i..] == Receive(input).rest
  {
    hide Receive;
    replies, i := "", 0;
    assert input[0..] == input;
    Receive(input).AfterNothing();
    while true
      invariant i <= |input| && Receive(input) == Receive(input[i..]).After(replies)
      decreases |input| - i
    {
      var a, reply;
      a, len, reply, i := TryPacket(input, i, buffer);
      if a == Again { Receive(input[i..]).AfterTwice(reply, replies); }
      replies := replies + reply;
      if a != Again { return a == Done, len, replies, i; }
    }
  }

  lemma ReceiveStep(input: string, i: nat)
    requires i <= |input| && (i < |input| ==> input[i] == '$')
    ensures i == |input| ==> Receive(input[i..]) == Blocked("")
    ensures i < |input| ==> Receive(input[i..]) == Collect(input[i + 1..], "")
  {
    hide Collect;
    if i < |input| { assert input[i..][1..] == input[i + 1..]; }
  }

  lemma CollectStep(input: string, i: nat, got: string)
    requires i <= |input|
    ensures |got| >= BUFMAX - 1 ==> Collect(input[i..], got) == Receive(input[i..])
    ensures |got| < BUFMAX - 1 && i == |input| ==> Collect(input[i..], got) == Blocked("")
    ensures |got| < BUFMAX - 1 && i < |input| && input[i] == '#' ==>
              Collect(input[i..], got) ==
                if i + 3 > |input| then Blocked("")
                else if Checksum(got) != Sent(input[i + 1], input[i + 2]) then Receive(input[i + 3..]).After("-")
                else Packet(got, "+", input[i + 3..])
  {
    hide Receive; hide Sent; hide Checksum;
    if i + 3 <= |input| { assert input[i..][3..] == input[i + 3..]; }
  }

  /** Whatever came before it, unless that was the end of a packet, a start character
      starts a packet. */
  lemma {:induction false} StartResynchronises(noise: string, tail: string)
    requires NoHash(noise)
    ensures Receive(noise + "$" + tail) == Collect(tail, "")
    decreases |noise|, 0
  {
    hide Collect;
    var input := noise + "$" + tail;
    if noise == [] {
      assert input[1..] == tail;
    } else {
      assert input[1..] == noise[1..] + "$" + tail;
      if noise[0] != '$' {
        StartResynchronises(noise[1..], tail);
      } else {
        StartInside(noise[1..], "", tail);
      }
    }
  }

  lemma {:induction false} StartInside(noise: string, got: string, tail: string)
    requires NoHash(noise)
    ensures Collect(noise + "$" + tail, got) == Collect(tail, "")
    decreases |noise|, 1
  {
    hide Receive; hide Checksum; hide Sent;
    var input := noise + "$" + tail;
    if |got| >= BUFMAX - 1 {
      StartResynchronises(noise, tail);
    } else if noise == [] {
      assert input[1..] == tail;
    } else {
      assert input[1..] == noise[1..] + "$" + tail;
      StartInside(noise[1..], if noise[0] == '$' then "" else got + [noise[0]], tail);
    }
  }

  lemma {:induction false} BodyIsCollected(p: string, got: string, input: string)
    requires NoMarks(p) && |got| + |p| < BUFMAX
    ensures Collect(p + input, got) == Collect(input, got + p)
    decreases |p|
  {
    hide Receive; hide Checksum; hide Sent;
    if p == [] {
      assert p + input == input && got + p == got;
    } else {
      assert (p + input)[1..] == p[1..] + input;
      assert got + p == got + [p[0]] + p[1..];
      BodyIsCollected(p[1..], got + [p[0]], input);
    }
  }

  /** A frame after noise is received as it was sent and acknowledged. */
  lemma FrameIsReceived(noise: string, p: string, rest: string)
    requires NoHash(noise) && Plain(p)
    ensures Receive(noise + Frame(p) + rest) == Packet(p, "+", rest)
  {
    hide Receive; hide Checksum; hide Sent; hide ToHex;
    var tail := "#" + [ToHex(Checksum(p) / 16), ToHex(Checksum(p) % 16)] + rest;
    StartResynchronises(noise, p + tail);
    assert noise + Frame(p) + rest == noise + "$" + (p + tail);
    BodyIsCollected(p, "", tail);
    assert "" + p == p;
    HexChecksum(Checksum(p));
    assert tail[3..] == rest;
  }

  lemma HexChecksum(c: nat)
    requires c < 256
    ensures Sent(ToHex(c / 16), ToHex(c % 16)) == c
  {}

  /** A packet whose checksum does not match is answered with a minus and forgotten. */
  lemma BadFrameIsRefused(noise: string, p: string, a: char, b: char, rest: string)
    requires NoHash(noise) && Plain(p) && Sent(a, b) != Checksum(p)
    ensures Receive(noise + "$" + p + "#" + [a, b] + rest) == Receive(rest).After("-")
  {
    hide Receive; hide Checksum; hide Sent;
    var tail := "#" + [a, b] + rest;
    assert noise + "$" + p + "#" + [a, b] + rest == noise + "$" + (p + tail);
    StartResynchronises(noise, p + tail);
    BodyIsCollected(p, "", tail);
    assert "" + p == p;
    assert tail[3..] == rest;
  }

  /** A packet of one character too many is dropped without an answer. */
  lemma LongFrameIsDropped(noise: string, p: string, rest: string)
    requires NoHash(noise) && NoMarks(p) && |p| == BUFMAX - 1
    ensures Receive(noise + "$" + p + rest) == Receive(rest)
  {
    hide Receive; hide Checksum; hide Sent;
    assert noise + "$" + p + rest == noise + "$" + (p + rest);
    StartResynchronises(noise, p + rest);
    BodyIsCollected(p, "", rest);
    assert "" + p == p;
  }

  // ---------- Whatever arrives ----------

  /** `p` is in the input as a packet with a matching checksum that ends before `rest`. */
  ghost predicate Framed(input: string, p: string, rest: string) {
    exists before: string, a: char, b: char ::
      input == before + "$" + p + "#" + [a, b] + rest && Sent(a, b) == Checksum(p)
  }

  lemma FramedLater(input: string, cut: string, p: string, rest: string)
    requires Framed(input, p, rest)
    ensures Framed(cut + input, p, rest)
  {
    var before: string, a: char, b: char :| input == before + "$" + p + "#" + [a, b] + rest
      && Sent(a, b) == Checksum(p);
    assert cut + input == (cut + before) + "$" + p + "#" + [a, b] + rest;
  }

  /** Only what was framed with a matching checksum is ever accepted, on any input. */
  lemma {:induction false} AcceptedWasFramed(input: string)
    ensures var o := Receive(input); o.Packet? ==> Plain(o.payload) && Framed(input, o.payload, o.rest)
    decreases |input|, 0
  {
    hide Checksum; hide Sent; hide Framed; hide Plain; hide Collect;
    if input != [] {
      var o := Receive(input);
      if input[0] != '$' {
        AcceptedWasFramed(input[1..]);
        if o.Packet? { FramedLater(input[1..], [input[0]], o.payload, o.rest); }
        assert [input[0]] + input[1..] == input;
      } else {
        CollectedWasFramed(input[1..], "");
        assert "$" + "" + input[1..] == input;
      }
    }
  }

  lemma {:induction false} CollectedWasFramed(input: string, got: string)
    requires NoMarks(got) && |got| < BUFMAX
    ensures var o := Collect(input, got); o.Packet? ==> Plain(o.payload) && Framed("$" + got + input, o.payload, o.rest)
    decreases |input|, 1
  {
    hide Checksum; hide Sent; hide Framed; hide Receive;
    var o := Collect(input, got);
    if o.Packet? {
      if |got| >= BUFMAX - 1 {
        AcceptedWasFramed(input);
        FramedLater(input, "$" + got, o.payload, o.rest);
      } else if input[0] == '$' {
        CollectedWasFramed(input[1..], "");
        assert "$" + got + input == ("$" + got) + ("$" + "" + input[1..]);
        FramedLater("$" + "" + input[1..], "$" + got, o.payload, o.rest);
      } else if input[0] == '#' {
        if Checksum(got) == Sent(input[1], input[2]) {
          FramedHere(got, input);
        } else {
          AcceptedWasFramed(input[3..]);
          assert "$" + got + input == ("$" + got + input[..3]) + input[3..];
          FramedLater(input[3..], "$" + got + input[..3], o.payload, o.rest);
        }
      } else {
        CollectedWasFramed(input[1..], got + [input[0]]);
        assert "$" + got + input == "$" + (got + [input[0]]) + input[1..];
      }
    }
  }

  /** A row of minus signs followed by `last`. */
  predicate NaksThen(replies: string, last: string) {
    && |replies| >= |last| && replies[|replies| - |last|..] == last
    && forall i :: 0 <= i < |replies| - |last| ==> replies[i] == '-'
  }

  predicate RepliesOk(o: Outcome) { NaksThen(o.replies, if o.Packet? then "+" else "") }

  lemma AfterNak(o: Outcome)
    requires RepliesOk(o)
    ensures RepliesOk(o.After("-"))
  {}

  /** The one plus that is ever sent is for the packet that is returned. */
  lemma {:induction false} OnlyAcceptedIsAcknowledged(input: string)
    ensures RepliesOk(Receive(input))
    decreases |input|, 0
  {
    if input != [] {
      if input[0] != '$' { OnlyAcceptedIsAcknowledged(input[1..]); } else { CollectedReplies(input[1..], ""); }
    }
  }

  lemma {:induction false} CollectedReplies(input: string, got: string)
    ensures RepliesOk(Collect(input, got))
    decreases |input|, 1
  {
    hide Checksum; hide Sent; hide Receive;
    if |got| >= BUFMAX - 1 {
      OnlyAcceptedIsAcknowledged(input);
    } else if input == [] {
    } else if input[0] == '$' {
      CollectedReplies(input[1..], "");
    } else if input[0] == '#' {
      if |input| >= 3 && Checksum(got) != Sent(input[1], input[2]) {
        OnlyAcceptedIsAcknowledged(input[3..]);
        AfterNak(Receive(input[3..]));
      }
    } else {
      CollectedReplies(input[1..], got + [input[0]]);
    }
  }

  lemma FramedHere(got: string, input: string)
    requires |input| >= 3 && input[0] == '#' && Checksum(got) == Sent(input[1], input[2])
    ensures Framed("$" + got + input, got, input[3..])
  {
    assert "$" + got + input == "" + "$" + got + "#" + [input[1], input[2]] + input[3..];
  }

  // ---------- Sending, and the two together ----------

  function Frames(p: string, n: nat): string { if n == 0 then "" else Frame(p) + Frames(p, n - 1) }

  /** putpacket: sends the frame again until an acknowledgement is a plus. `acks` are
      the characters that the other side answers; the stub waits if they run out. */
  method PutPacket(buffer: string, acks: string) returns (sent: string, used: nat, done: bool)
    requires NUL !in buffer
    ensures used <= |acks| && (forall i :: 0 <= i < used - 1 ==> acks[i] != '+')
    ensures done ==> used > 0 && acks[used - 1] == '+' && sent == Frames(buffer, used)
    ensures !done ==> used == |acks| && '+' !in acks && sent == Frames(buffer, used + 1)
  {
    hide Frame;
    sent, used, done := "", 0, false;
    while true
      invariant used <= |acks| && sent == Frames(buffer, used) && forall i :: 0 <= i < used ==> acks[i] != '+'
      decreases |acks| - used
    {
      var one := SendFrame(buffer);
      FramesMore(buffer, used);
      sent := sent + one;
      if used == |acks| { return; }
      used := used + 1;
      if acks[used - 1] == '+' { done := true; return; }
    }
  }

  method SendFrame(buffer: string) returns (sent: string)
    ensures sent == Frame(buffer)
  {
    hide ToHex;
    var checksum: nat := 0;
    sent := "$";
    var pos := 0;
    while pos < |buffer|
      invariant pos <= |buffer| && sent == "$" + buffer[..pos] && checksum == Checksum(buffer[..pos])
    {
      assert buffer[..pos + 1][..pos] == buffer[..pos];
      assert buffer[..pos + 1] == buffer[..pos] + [buffer[pos]];
      sent := sent + [buffer[pos]];
      checksum := (checksum + buffer[pos] as nat) % 256;
      pos := pos + 1;
    }
    assert buffer[..pos] == buffer;
    sent := sent + "#" + [ToHex(checksum / 16)] + [ToHex(checksum % 16)];
    assert sent == Frame(buffer);
  }

  lemma {:induction false} FramesMore(p: string, n: nat)
    ensures Frames(p, n + 1) == Frames(p, n) + Frame(p)
  {
    hide Frame;
    if n == 0 {
      assert Frames(p, 1) == Frame(p) + Frames(p, 0);
      assert Frame(p) + "" == Frame(p) && "" + Frame(p) == Frame(p);
    } else {
      FramesMore(p, n - 1);
      assert Frames(p, n + 1) == Frame(p) + (Frames(p, n - 1) + Frame(p));
    }
  }

  /** One transmission as it arrives: damaged so that its checksum fails. */
  datatype Damaged = Damaged(noise: string, body: string, a: char, b: char) {
    predicate Valid() { NoHash(noise) && Plain(body) && Sent(a, b) != Checksum(body) }
    function Text(): string { noise + "$" + body + "#" + [a, b] }
  }

  function Line(ds: seq<Damaged>): string { if ds == [] then "" else ds[0].Text() + Line(ds[1..]) }

  function Minuses(n: nat): (s: string)
    ensures |s| == n && forall i :: 0 <= i < n ==> s[i] == '-'
  {
    if n == 0 then "" else "-" + Minuses(n - 1)
  }

  /** Retransmission: however many transmissions are damaged, the first intact one
      delivers the packet, after exactly one minus for each damaged one. */
  lemma {:induction false} RetransmissionDelivers(ds: seq<Damaged>, p: string, rest: string)
    requires Plain(p) && forall d :: d in ds ==> d.Valid()
    ensures Receive(Line(ds) + Frame(p) + rest) == Packet(p, Minuses(|ds|) + "+", rest)
    decreases |ds|
  {
    hide Frame; hide Plain; hide NoHash; hide Checksum; hide Sent; hide Receive;
    if ds == [] {
      assert Line(ds) + Frame(p) + rest == "" + Frame(p) + rest;
      NoHashEmpty();
      FrameIsReceived("", p, rest);
      assert "" + "+" == "+";
    } else {
      var d, more := ds[0], Line(ds[1..]) + Frame(p) + rest;
      RetransmissionDelivers(ds[1..], p, rest);
      assert d in ds && d.Valid();
      BadFrameIsRefused(d.noise, d.body, d.a, d.b, more);
      assert Line(ds) + Frame(p) + rest == d.noise + "$" + d.body + "#" + [d.a, d.b] + more;
      assert "-" + (Minuses(|ds| - 1) + "+") == Minuses(|ds|) + "+";
    }
  }

  lemma NoHashEmpty()
    ensures NoHash("")
  {}
}
