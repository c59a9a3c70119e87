/** Printing into a buffer of limited size: kprintf and snprintf. */
module Snprintf {
  import opened Numerals
  import opened Printf

  function Min(a: nat, b: nat): nat { if a < b then a else b }

  /** The buffer after printing `s` into it from the start, as far as it fits. */
  ghost predicate Shows(b: seq<char>, was: seq<char>, s: string) {
    |b| == |was| && var n := Min(|s|, |b|); b[..n] == s[..n] && b[n..] == was[n..]
  }

  lemma ShowsMore(b: seq<char>, was: seq<char>, s: string, c: char)
    requires Shows(b, was, s) && |s| < |b|
    ensures Shows(b[|s| := c], was, s + [c])
  {
    var n := |s|;
    assert b[n := c][..n + 1] == b[..n] + [c];
    assert b[n := c][n + 1..] == b[n..][1..];
  }

  /** Once the buffer is full, what follows does not change it. */
  lemma FullStays(b: seq<char>, was: seq<char>, s: string, t: string)
    requires Shows(b, was, s) && |s| >= |b|
    ensures Shows(b, was, s + t)
  {
    assert (s + t)[..|b|] == s[..|b|];
  }

  method PutChar(buf: array<char>, pos: nat, c: char, ghost was: seq<char>, ghost s: string)
      returns (next: nat, ok: bool)
    requires Shows(buf[..], was, s) && pos == |s| <= buf.Length
    modifies buf
    ensures ok <==> pos < buf.Length
    ensures Shows(buf[..], was, s + [c]) && next == Min(|s| + 1, buf.Length)
  {
    hide Shows;
    next, ok := pos, pos != buf.Length;
    if ok {
      ShowsMore(buf[..], was, s, c);
      buf[pos] := c;
      next := pos + 1;
    } else {
      FullStays(buf[..], was, s, [c]);
    }
  }

  method PutText(buf: array<char>, pos: nat, text: string, ghost was: seq<char>, ghost s: string)
      returns (next: nat, ok: bool)
    requires Shows(buf[..], was, s) && pos == |s| <= buf.Length
    modifies buf
    ensures ok <==> pos + |text| <= buf.Length
    ensures Shows(buf[..], was, s + text) && next == Min(|s| + |text|, buf.Length)
  {
    hide Shows;
    next, ok := pos, true;
    var i := 0;
    assert s + text[..0] == s;
    while i < |text|
      invariant i <= |text| && ok && next == |s| + i <= buf.Length && Shows(buf[..], was, s + text[..i])
    {
      assert s + text[..i + 1] == s + text[..i] + [text[i]];
      next, ok := PutChar(buf, next, text[i], was, s + text[..i]);
      i := i + 1;
      if !ok {
        FullStays(buf[..], was, s + text[..i], text[i..]);
        assert s + text[..i] + text[i..] == s + text;
        return;
      }
    }
    assert text[..i] == text;
  }

  method PutPad(buf: array<char>, pos: nat, c: char, n0: int, ghost was: seq<char>, ghost s: string)
      returns (next: nat, ok: bool)
    requires Shows(buf[..], was, s) && pos == |s| <= buf.Length
    modifies buf
    ensures ok <==> pos + |Pad(c, n0)| <= buf.Length
    ensures Shows(buf[..], was, s + Pad(c, n0)) && next == Min(|s| + |Pad(c, n0)|, buf.Length)
  {
    hide Shows;
    next, ok := pos, true;
    var n := n0;
    ghost var t := s;
    while n > 0
      invariant ok && next == |t| <= buf.Length && Shows(buf[..], was, t) && s + Pad(c, n0) == t + Pad(c, n)
      decreases n
    {
      assert t + Pad(c, n) == t + [c] + Pad(c, n - 1);
      next, ok := PutChar(buf, next, c, was, t);
      t, n := t + [c], n - 1;
      if !ok {
        FullStays(buf[..], was, t, Pad(c, n));
        return;
      }
    }
    assert t + Pad(c, n) == t;
  }

  // ---------- One field ----------

  method PutPart(buf: array<char>, pos: nat, p: Part, ghost was: seq<char>, ghost s: string)
      returns (next: nat, ok: bool)
    requires Shows(buf[..], was, s) && pos == |s| <= buf.Length
    modifies buf
    ensures ok <==> pos + |p.Text()| <= buf.Length
    ensures Shows(buf[..], was, s + p.Text()) && next == Min(|s| + |p.Text()|, buf.Length)
  {
    hide Shows;
    match p
    case Fill(c, n) => next, ok := PutPad(buf, pos, c, n, was, s);
    case Copy(t) => next, ok := PutText(buf, pos, t, was, s);
  }

  /** The parts of a field in the order in which they are printed. */
  method PutField(buf: array<char>, pos: nat, f: Field, ghost was: seq<char>, ghost s: string)
      returns (next: nat, ok: bool)
    requires Shows(buf[..], was, s) && pos == |s| <= buf.Length
    modifies buf
    ensures ok <==> pos + FieldSize(f) <= buf.Length
    ensures Shows(buf[..], was, s + FieldText(f)) && (ok ==> next == |s| + FieldSize(f))
  {
    hide Shows; hide Parts; hide FieldSize; hide Part.Text;
    FieldSizeIsExact(f);
    var parts := Parts(f);
    ghost var t := s;
    next, ok := pos, true;
    while parts != []
      invariant ok && next == |t| <= buf.Length && Shows(buf[..], was, t) && s + FieldText(f) == t + Join(parts)
      decreases |parts|
    {
      assert t + Join(parts) == t + parts[0].Text() + Join(parts[1..]);
      next, ok := PutPart(buf, next, parts[0], was, t);
      t, parts := t + parts[0].Text(), parts[1..];
      if !ok {
        FullStays(buf[..], was, t, Join(parts));
        return;
      }
    }
    assert t + Join(parts) == t;
  }

  // ---------- The whole format ----------

  /** The first piece that does not fit, or the number of pieces. */
  function Misfit(ps: seq<string>, room: nat): (k: nat)
    ensures k <= |ps|
  {
    if ps == [] || |ps[0]| > room then 0 else 1 + Misfit(ps[1..], room - |ps[0]|)
  }

  /** The result of kprintf: the length of what fits as a whole and, if there is a piece
      that does not fit, its length too and one more. */
  function Result(ps: seq<string>, room: nat): nat {
    var k := Misfit(ps, room);
    if k == |ps| then |Concat(ps)| else |Concat(ps[..k + 1])| + 1
  }

  /** That piece is the one in which the buffer ends. */
  lemma {:induction false} MisfitMeans(ps: seq<string>, room: nat)
    ensures var k := Misfit(ps, room);
      |Concat(ps[..k])| <= room && (k < |ps| ==> |Concat(ps[..k + 1])| > room)
    decreases |ps|
  {
    var k := Misfit(ps, room);
    if ps == [] {
    } else if |ps[0]| > room {
      assert ps[..1][1..] == [];
    } else {
      MisfitMeans(ps[1..], room - |ps[0]|);
      assert ps[..k][1..] == ps[1..][..k - 1];
      if k < |ps| { assert ps[..k + 1][1..] == ps[1..][..k]; }
    }
  }

  lemma SplitAt(ps: seq<string>, k: nat)
    requires k < |ps|
    ensures |Concat(ps)| == |Concat(ps[..k + 1])| + |Concat(ps[k + 1..])|
  {
    assert ps == ps[..k + 1] + ps[k + 1..];
    ConcatParts(ps[..k + 1], ps[k + 1..]);
  }

  /** All pieces fit exactly if the output does. The result is the length of the output
      exactly if it fits or one character comes behind the piece in which the buffer ends;
      the result of an output that does not fit is at least two more than the room. */
  lemma ResultMeans(ps: seq<string>, room: nat)
    ensures var k := Misfit(ps, room);
      && (k == |ps| <==> |Concat(ps)| <= room)
      && (Result(ps, room) == |Concat(ps)| <==> k == |ps| || |Concat(ps[k + 1..])| == 1)
      && (k < |ps| ==> room + 2 <= Result(ps, room) <= |Concat(ps)| + 1)
  {
    hide Misfit; hide Concat;
    MisfitMeans(ps, room);
    var k := Misfit(ps, room);
    if k < |ps| {
      SplitAt(ps, k);
    } else {
      assert ps[..k] == ps;
    }
  }

  lemma ResultStep(p: string, ps: seq<string>, room: nat)
    ensures |p| <= room ==> Result([p] + ps, room) == |p| + Result(ps, room - |p|)
    ensures |p| > room ==> Result([p] + ps, room) == |p| + 1
  {
    var qs := [p] + ps;
    assert qs[1..] == ps;
    var k := Misfit(qs, room);
    if |p| > room {
      assert qs[..1] == [p];
      assert Concat([p]) == p + Concat([p][1..]) == p;
    } else if k < |qs| {
      assert qs[..k + 1][1..] == ps[..k];
    }
  }

  /** A text without directives has the result of its length, or of the room and two more:
      the two are the same if there are two characters too many. */
  lemma {:induction false} PlainTextResult(fmt: string, i: nat, args: seq<Arg>, long: Long, room: nat)
    requires i <= |fmt| && '%' !in fmt
    ensures Concat(Pieces(fmt, i, args, long)) == fmt[i..]
    ensures Result(Pieces(fmt, i, args, long), room) == if |fmt| - i <= room then |fmt| - i else room + 2
    decreases |fmt| - i
  {
    hide Result; hide Pieces;
    PiecesStep(fmt, i, args, long);
    var ps := Pieces(fmt, i, args, long);
    if i < |fmt| {
      var qs := Pieces(fmt, i + 1, args, long);
      ResultStep([fmt[i]], qs, room);
      PlainTextResult(fmt, i + 1, args, long, if room > 0 then room - 1 else 0);
      assert ps[1..] == qs;
    } else {
      assert Result([], room) == 0 by { NoPieces(room); }
    }
  }

  lemma NoPieces(room: nat)
    ensures Result([], room) == 0
  {}

  /** kprintf into a buffer: the output, as far as it fits. */
  method Kprintf(buf: array<char>, fmt: string, args0: seq<Arg>, long: Long) returns (ret: nat)
    modifies buf
    ensures Shows(buf[..], old(buf[..]), Output(fmt, args0, long))
    ensures ret == Result(Pieces(fmt, 0, args0, long), buf.Length)
  {
    hide Shows; hide FieldText; hide FieldSize; hide Scan; hide Printf.Convert; hide Pieces; hide Concat; hide Result;
    ghost var was, s := buf[..], "";
    var pos, i: nat, args := 0, 0, args0;
    ret := 0;
    ShowsNothing(was);
    while i < |fmt|
      invariant Shows(buf[..], was, s) && pos == |s| == ret <= buf.Length
      invariant Output(fmt, args0, long) == s + Concat(Pieces(fmt, i, args, long))
      invariant Result(Pieces(fmt, 0, args0, long), buf.Length) ==
        ret + Result(Pieces(fmt, i, args, long), buf.Length - ret)
      decreases |fmt| - i
    {
      var ok;
      PiecesStep(fmt, i, args, long);
      if fmt[i] != '%' {
        ret := ret + 1;
        Printed(s, [fmt[i]], Pieces(fmt, i + 1, args, long));
        ResultStep([fmt[i]], Pieces(fmt, i + 1, args, long), buf.Length - |s|);
        pos, ok := PutChar(buf, pos, fmt[i], was, s);
        s, i := s + [fmt[i]], i + 1;
      } else {
        var r := Scan(fmt, i + 1, PLAIN, args);
        if r.Stop? {
          Finished(s, buf.Length - |s|);
          return;
        }
        var c := Printf.Convert(r.ch, r.spec, r.args, long);
        ok := true;
        if c.0 != [] {
          var f := c.0[0];
          FieldSizeIsExact(f);
          ret := ret + FieldSize(f);
          Printed(s, FieldText(f), Pieces(fmt, r.next, c.1, long));
          ResultStep(FieldText(f), Pieces(fmt, r.next, c.1, long), buf.Length - |s|);
          pos, ok := PutField(buf, pos, f, was, s);
          s := s + FieldText(f);
        }
        i, args := r.next, c.1;
      }
      if !ok {
        FullStays(buf[..], was, s, Concat(Pieces(fmt, i, args, long)));
        ret := ret + 1;
        return;
      }
    }
    PiecesStep(fmt, i, args, long);
    Finished(s, buf.Length - |s|);
  }

  lemma Printed(s: string, p: string, ps: seq<string>)
    ensures s + Concat([p] + ps) == s + p + Concat(ps)
  {
    assert ([p] + ps)[1..] == ps;
  }

  lemma Finished(s: string, room: nat)
    ensures s + Concat([]) == s && Result([], room) == 0
  {}

  lemma PiecesStep(fmt: string, i: nat, args: seq<Arg>, long: Long)
    ensures i >= |fmt| ==> Pieces(fmt, i, args, long) == []
    ensures i < |fmt| && fmt[i] != '%' ==> Pieces(fmt, i, args, long) == [[fmt[i]]] + Pieces(fmt, i + 1, args, long)
    ensures i < |fmt| && fmt[i] == '%' ==>
              var r := Scan(fmt, i + 1, PLAIN, args);
              && (r.Stop? ==> Pieces(fmt, i, args, long) == [])
              && (r.Conversion? ==>
                    var c := Printf.Convert(r.ch, r.spec, r.args, long);
                    var rest := Pieces(fmt, r.next, c.1, long);
                    Pieces(fmt, i, args, long) == if c.0 == [] then rest else [FieldText(c.0[0])] + rest)
  {
    hide Scan; hide Printf.Convert; hide FieldText;
  }

  lemma ShowsNothing(b: seq<char>)
    ensures Shows(b, b, "")
  {}

  /** snprintf: the result is below the size exactly if the whole output fits together
      with its terminator; only then there is a terminator, right behind the output. */
  method Snprintf(buf: array<char>, fmt: string, args: seq<Arg>, long: Long) returns (ret: int)
    modifies buf
    ensures ret == if buf.Length == 0 then -1 else Result(Pieces(fmt, 0, args, long), buf.Length)
    ensures var out := Output(fmt, args, long);
      buf.Length > 0 ==> (ret < buf.Length <==> |out| < buf.Length)
    ensures var out := Output(fmt, args, long);
      0 <= ret < buf.Length ==> ret == |out| && buf[..] == out + [NUL] + old(buf[..])[|out| + 1..]
    ensures var out := Output(fmt, args, long);
      buf.Length > 0 && ret >= buf.Length ==> buf[..] == out[..buf.Length]
  {
    hide Result; hide Pieces; hide Concat;
    if buf.Length < 1 { return -1; }
    ret := Kprintf(buf, fmt, args, long);
    ghost var b, out := buf[..], Output(fmt, args, long);
    ResultMeans(Pieces(fmt, 0, args, long), buf.Length);
    if ret < buf.Length {
      buf[ret] := NUL;
      Terminated(b, old(buf[..]), out);
    } else {
      assert b == b[..buf.Length];
    }
  }

  lemma Terminated(b: seq<char>, was: seq<char>, out: string)
    requires Shows(b, was, out) && |out| < |b|
    ensures b[|out| := NUL] == out + [NUL] + was[|out| + 1..]
  {
    var n := |out|;
    assert b == b[..n] + b[n..];
    assert b[n := NUL] == b[..n] + [NUL] + b[n..][1..];
  }

  // ---------- Printed numbers can be read back ----------

  /** Without width, precision and flags a field is its text. */
  lemma BareField(text: string)
    ensures FieldText(Field(text, "", 0, -1, false, false)) == text
  {
    var f := Field(text, "", 0, -1, false, false);
    FieldSizeIsExact(f);
    var p := Parts(f);
    assert p == [Fill(' ', -|text|), Copy(""), Fill('0', 0), Fill('0', -1 - |text|), Copy(text), Fill(' ', 0)];
    assert Join(p) == Join(p[1..]) == Join(p[1..][1..]) == Join(p[1..][1..][1..]) == Join(p[1..][1..][1..][1..]);
    assert p[1..][1..][1..][1..] == [Copy(text), Fill(' ', 0)];
    assert [Copy(text), Fill(' ', 0)][1..] == [Fill(' ', 0)];
    assert Join([Fill(' ', 0)]) == "";
    assert Join([Copy(text), Fill(' ', 0)]) == text + "";
  }

  /** A number printed with %lu or %lx: a long is printed as it is, a larger number
      without what does not fit. */
  lemma PrintedAlone(fmt: string, v: nat, hex: bool, long: Long)
    requires fmt == if hex then "%lx" else "%lu"
    ensures Output(fmt, [Int(v)], long) == Digits(v % long, if hex then 16 else 10, false)
  {
    hide Digits; hide FieldText;
    var args := [Int(v)];
    var sp := PLAIN.(length := DEFAULT.(long := true));
    assert Scan(fmt, 2, sp, args) == Conversion(fmt[2], 3, sp, args);
    assert Scan(fmt, 1, PLAIN, args) == Scan(fmt, 2, sp, args);
    var f := NumberField(sp.(sign := NUL), v % long, if hex then Hex else Dec, false, false);
    assert Shift(args) == [] && SizeOf(sp.length, long) == long;
    assert fmt[2] == if hex then 'x' else 'u';
    assert Printf.Convert(fmt[2], sp, args, long) == ([f], []);
    BareField(f.text);
    PiecesStep(fmt, 0, args, long);
    PiecesStep(fmt, 3, [], long);
    Printed("", f.text, []);
  }

  /** Whatever can be passed as a long, printed with %lu or %lx and read with strtoul, is
      the same number. */
  lemma PrintedIsReadBack(v: nat, hex: bool, long: Long)
    requires v < long
    ensures var b := if hex then 16 else 10;
      var s := Output(if hex then "%lx" else "%lu", [Int(v)], long);
      Span(s, b) == |s| && Value(s[..Span(s, b)], b) % long == v
  {
    hide Output; hide Digits; hide Span; hide Value;
    var b := if hex then 16 else 10;
    PrintedAlone(if hex then "%lx" else "%lu", v, hex, long);
    Remainder(v, long);
    PrintThenParse(v, b, false, "", long);
    assert Digits(v, b, false) + "" == Digits(v, b, false);
  }

  function Nat(n: int): nat { if n > 0 then n else 0 }

  lemma PadJoin(c: char, a: int, b: int)
    ensures Pad(c, a) + Pad(c, b) == Pad(c, Nat(a) + Nat(b))
  {
    hide Pad;
  }

  /** Without a prefix and without blanks in front, a field is zeros, its text and blanks. */
  lemma ZeroField(f: Field)
    requires f.prefix == "" && (f.ladjust || f.zeropad || f.width <= RealSize(f))
    ensures var n := f.width - RealSize(f);
      var zeros := Nat(if !f.ladjust && f.zeropad then n else 0) + Nat(f.dprec - |f.text|);
      FieldText(f) == Pad('0', zeros) + f.text + Pad(' ', if f.ladjust then n else 0)
  {
    hide Pad; hide Join; hide Parts; hide Part.Text; hide RealSize;
    var n := f.width - RealSize(f);
    PartTexts(f);
    var a, b, c := (if !f.ladjust && !f.zeropad then n else 0), (if !f.ladjust && f.zeropad then n else 0),
      (if f.ladjust then n else 0);
    JoinSix(Parts(f));
    PadJoin('0', b, f.dprec - |f.text|);
    Regroup(Pad(' ', a), f.prefix, Pad('0', b), Pad('0', f.dprec - |f.text|), f.text, Pad(' ', c));
  }

  lemma PartTexts(f: Field)
    ensures var p, n := Parts(f), f.width - RealSize(f);
      && |p| == 6
      && p[0].Text() == Pad(' ', if !f.ladjust && !f.zeropad then n else 0) && p[1].Text() == f.prefix
      && p[2].Text() == Pad('0', if !f.ladjust && f.zeropad then n else 0)
        && p[3].Text() == Pad('0', f.dprec - |f.text|)
      && p[4].Text() == f.text && p[5].Text() == Pad(' ', if f.ladjust then n else 0)
  {
    hide Pad; hide RealSize;
  }

  lemma Regroup(a: string, p: string, y: string, z: string, t: string, c: string)
    requires a == "" && p == ""
    ensures a + (p + (y + (z + (t + (c + ""))))) == (y + z) + t + c
  {
    assert c + "" == c;
    assert y + (z + (t + c)) == (y + z) + t + c;
    assert "" + (y + (z + (t + c))) == y + (z + (t + c));
  }

  lemma JoinSix(p: seq<Part>)
    requires |p| == 6
    ensures Join(p) == p[0].Text() + (p[1].Text() + (p[2].Text() + (p[3].Text() + (p[4].Text() + (p[5].Text() + "")))))
  {
    hide Part.Text;
    assert p[1..][1..] == p[2..] && p[2..][1..] == p[3..] && p[3..][1..] == p[4..] && p[4..][1..] == p[5..]
      && p[5..][1..] == [];
    assert Join(p[5..]) == p[5].Text() + Join([]);
    assert Join(p[4..]) == p[4].Text() + Join(p[5..]);
    assert Join(p[3..]) == p[3].Text() + Join(p[4..]);
    assert Join(p[2..]) == p[2].Text() + Join(p[3..]);
    assert Join(p[1..]) == p[1].Text() + Join(p[2..]);
  }

  lemma {:induction false} ZerosAddNothing(s: string, b: nat, n: nat)
    requires (b == 8 || b == 10 || b == 16) && forall i :: 0 <= i < |s| ==> DigitOf(s[i], b)
    ensures forall i :: 0 <= i < |Pad('0', n) + s| ==> DigitOf((Pad('0', n) + s)[i], b)
    ensures Value(Pad('0', n) + s, b) == Value(s, b)
    decreases |s| + n
  {
    var z := Pad('0', n);
    assert forall i :: 0 <= i < |z + s| ==> (z + s)[i] == if i < n then '0' else s[i - n];
    if s != [] {
      var t := s[..|s| - 1];
      assert (z + s)[..|z + s| - 1] == z + t;
      ZerosAddNothing(t, b, n);
    } else if n > 0 {
      assert z + s == Pad('0', n);
      assert (z + s)[..n - 1] == Pad('0', n - 1) + s;
      ZerosAddNothing(s, b, n - 1);
    } else {
      assert z + s == s;
    }
  }

  /** Padding with zeros, precision and left adjustment do not change what strtoul reads. */
  lemma FieldIsReadBack(f: Field, v: nat, b: nat, upper: bool, long: Long)
    requires (b == 10 || b == 16) && v < long && f.text == Digits(v, b, upper) && f.prefix == ""
    requires f.ladjust || f.zeropad || f.width <= RealSize(f)
    ensures var s := FieldText(f); Value(s[..Span(s, b)], b) % long == v
  {
    hide FieldText; hide Digits; hide Span; hide Value; hide Pad;
    var n := f.width - RealSize(f);
    var zeros := Nat(if !f.ladjust && f.zeropad then n else 0) + Nat(f.dprec - |f.text|);
    var blanks := Pad(' ', if f.ladjust then n else 0);
    ZeroField(f);
    DigitsValue(v, b, upper);
    ZerosAddNothing(f.text, b, zeros);
    var ds, s := Pad('0', zeros) + f.text, FieldText(f);
    assert s == ds + blanks && s[..|ds|] == ds;
    assert |ds| < |s| ==> s[|ds|] == ' ';
    SpanIs(s, b, |ds|);
    Remainder(v, long);
  }
}
