/** What kprintf prints: format directives, fields and the whole output as text, for
    longs and pointers of 32 or 64 bits. */
module Printf {
  import opened Numerals

  datatype Arg = Int(v: int) | Str(s: string) | NullStr

  const INT: nat := 0x1_0000_0000
  const SHORT: nat := 0x1_0000

  /** The next argument as an integer or as a string. What C leaves undefined, a missing
      or mismatched argument, is zero or the null pointer here. */
  function IntArg(args: seq<Arg>): int { if args != [] && args[0].Int? then args[0].v else 0 }

  function StrArg(args: seq<Arg>): string { if args != [] && args[0].Str? then args[0].s else "(null)" }

  function Shift(args: seq<Arg>): seq<Arg> { if args == [] then [] else args[1..] }

  function Unsigned(v: int, size: nat): (r: nat)
    requires size > 0
    ensures r < size
  {
    v % size
  }

  function Signed(v: int, size: nat): (r: int)
    requires size > 0
    ensures -(size as int) <= 2 * r < size as int
  {
    var u := v % size;
    if 2 * u >= size then u - size else u
  }

  // ---------- Directives ----------

  /** Flags, width and precision; a sign of NUL is none, a negative precision is none. */
  datatype Spec = Spec(alt: bool, ladjust: bool, zeropad: bool, length: Length, sign: char, width: nat, prec: int)

  /** The length flags, any of which may have been set. */
  datatype Length = Length(short: bool, long: bool, quad: bool, max: bool, ptr: bool, size: bool)

  const NUL: char := 0 as char

  const DEFAULT := Length(false, false, false, false, false, false)

  const PLAIN := Spec(false, false, false, DEFAULT, NUL, 0, -1)

  /** A directive up to and including its conversion character, or the end of the format. */
  datatype Scanned = Stop | Conversion(ch: char, next: nat, spec: Spec, args: seq<Arg>)

  /** The position after the digits at `i`, and their value, added to `n`. */
  function Number(fmt: string, i: nat, n: nat): (r: (nat, nat))
    ensures i <= r.1 && (i <= |fmt| ==> r.1 <= |fmt|) && (i < |fmt| && IsDigit(fmt[i]) ==> i < r.1)
    decreases |fmt| - i
  {
    if i < |fmt| && IsDigit(fmt[i]) then Number(fmt, i + 1, 10 * n + DigitValue(fmt[i])) else (n, i)
  }

  predicate IsLength(ch: char) { ch == 'h' || ch == 'j' || ch == 'l' || ch == 'q' || ch == 't' || ch == 'z' }

  /** One more length flag. */
  function Longer(n: Length, ch: char): Length {
    match ch
    case 'h' => n.(short := true)
    case 'j' => n.(max := true)
    case 'l' => n.(long := true)
    case 'q' => n.(quad := true)
    case 't' => n.(ptr := true)
    case _ => n.(size := true)
  }

  /** The scan from behind the percent sign. */
  function Scan(fmt: string, i: nat, sp: Spec, args: seq<Arg>): (r: Scanned)
    ensures r.Conversion? ==> i < r.next <= |fmt|
    decreases |fmt| - i
  {
    if i >= |fmt| then Stop
    else
      var ch := fmt[i];
      if ch == ' ' then Scan(fmt, i + 1, if sp.sign == NUL then sp.(sign := ' ') else sp, args)
      else if ch == '#' then Scan(fmt, i + 1, sp.(alt := true), args)
      else if ch == '*' then
        var w := Signed(IntArg(args), INT);
        Scan(fmt, i + 1, if w >= 0 then sp.(width := w) else sp.(width := -w, ladjust := true), Shift(args))
      else if ch == '-' then Scan(fmt, i + 1, sp.(ladjust := true), args)
      else if ch == '+' then Scan(fmt, i + 1, sp.(sign := '+'), args)
      else if ch == '.' then
        if i + 1 < |fmt| && fmt[i + 1] == '*' then
          var p := Signed(IntArg(args), INT);
          Scan(fmt, i + 2, sp.(prec := if p < 0 then -1 else p), Shift(args))
        else
          var n := Number(fmt, i + 1, 0);
          Scan(fmt, n.1, sp.(prec := n.0), args)
      else if ch == '0' then Scan(fmt, i + 1, sp.(zeropad := true), args)
      else if IsDigit(ch) then
        var n := Number(fmt, i, 0);
        Scan(fmt, n.1, sp.(width := n.0), args)
      else if ch == 'l' && i + 1 < |fmt| && fmt[i + 1] == 'l'
        then Scan(fmt, i + 2, sp.(length := Longer(sp.length, 'q')), args)
      else if IsLength(ch) then Scan(fmt, i + 1, sp.(length := Longer(sp.length, ch)), args)
      else Conversion(ch, i + 1, sp, args)
  }

  // ---------- Fields ----------

  /** A converted argument, ready to be padded. `prefix` is a sign, or 0x, or empty. */
  datatype Field = Field(text: string, prefix: string, width: nat, dprec: int, ladjust: bool, zeropad: bool)

  function SignedField(sp: Spec, v: int): Field
    requires -0x8000_0000_0000_0000 <= v < 0x8000_0000_0000_0000
  {
    var sign := if v < 0 then '-' else sp.sign;
    NumberField(sp.(sign := sign), if v < 0 then -v else v, Dec, false, false)
  }

  /** The digits of a number; zero with precision zero has none. */
  function NumberField(sp: Spec, v: nat, base: Base, upper: bool, hexPrefix: bool): Field {
    var text := if v != 0 || sp.prec != 0 then NumberText(v, base, upper, sp.alt) else "";
    var prefix := if sp.sign != NUL then [sp.sign] else if hexPrefix then ['0', if upper then 'X' else 'x'] else "";
    Field(text, prefix, sp.width, sp.prec, sp.ladjust, sp.zeropad && sp.prec < 0)
  }

  function TextField(sp: Spec, text: string): Field { Field(text, "", sp.width, 0, sp.ladjust, sp.zeropad) }

  /** The numbers an integer argument of this length can be: the first flag in this
      order counts, whatever the others are. */
  function SizeOf(n: Length, long: Long): (size: nat)
    ensures 0 < size <= QUAD
  {
    if n.max then QUAD else if n.ptr || n.size then long else if n.quad then QUAD
    else if n.long then long else if n.short then SHORT else INT
  }

  /** What a conversion prints, if it prints anything, and the arguments it leaves. */
  function Convert(ch: char, sp: Spec, args: seq<Arg>, long: Long): (r: (seq<Field>, seq<Arg>))
    ensures |r.0| <= 1
  {
    var bare := sp.(sign := NUL);
    var size := SizeOf(if ch in "DOU" then Longer(sp.length, 'l') else sp.length, long);
    if ch == 'c' then ([TextField(sp, [Unsigned(IntArg(args), 256) as char])], Shift(args))
    else if ch in "Ddi" then ([SignedField(sp, Signed(IntArg(args), size))], Shift(args))
    else if ch == 'n' then ([], Shift(args))
    else if ch in "Oo" then ([NumberField(bare, Unsigned(IntArg(args), size), Oct, false, false)], Shift(args))
    else if ch == 'p' then ([NumberField(bare, Unsigned(IntArg(args), long), Hex, false, true)], Shift(args))
    else if ch == 's' then
      var s := StrArg(args);
      ([TextField(sp, if 0 <= sp.prec < |s| then s[..sp.prec] else s)], Shift(args))
    else if ch in "Uu" then ([NumberField(bare, Unsigned(IntArg(args), size), Dec, false, false)], Shift(args))
    else if ch in "Xx" then
      var v := Unsigned(IntArg(args), size);
      ([NumberField(bare, v, Hex, ch == 'X', sp.alt && v != 0)], Shift(args))
    else ([TextField(sp, [ch])], args)
  }

  function Pad(c: char, n: int): (s: string)
    ensures |s| == if n > 0 then n else 0
    ensures forall i :: 0 <= i < |s| ==> s[i] == c
  {
    if n <= 0 then "" else [c] + Pad(c, n - 1)
  }

  /** The size without padding to the width. */
  function RealSize(f: Field): nat { (if f.dprec > |f.text| then f.dprec else |f.text|) + |f.prefix| }

  function FieldSize(f: Field): nat { if f.width > RealSize(f) then f.width else RealSize(f) }

  /** A part of a field: a repeated character, or text. */
  datatype Part = Fill(c: char, n: int) | Copy(s: string) {
    function Text(): string { if Fill? then Pad(c, n) else s }
  }

  function Join(parts: seq<Part>): (s: string) { if parts == [] then "" else parts[0].Text() + Join(parts[1..]) }

  /** The six parts that are printed in turn: blanks, the prefix, zeros up to the width,
      zeros up to the precision, the digits or the string, and blanks. */
  function Parts(f: Field): seq<Part> {
    var n := f.width - RealSize(f);
    [Fill(' ', if !f.ladjust && !f.zeropad then n else 0), Copy(f.prefix),
      Fill('0', if !f.ladjust && f.zeropad then n else 0),
     Fill('0', f.dprec - |f.text|), Copy(f.text), Fill(' ', if f.ladjust then n else 0)]
  }

  function FieldText(f: Field): (s: string) { Join(Parts(f)) }

  function Lengths(parts: seq<Part>): nat { if parts == [] then 0 else |parts[0].Text()| + Lengths(parts[1..]) }

  lemma {:induction false} JoinLength(parts: seq<Part>)
    ensures |Join(parts)| == Lengths(parts)
  {
    if parts != [] { JoinLength(parts[1..]); }
  }

  /** The size that is counted is the size that is printed. */
  lemma FieldSizeIsExact(f: Field)
    ensures |FieldText(f)| == FieldSize(f)
  {
    var p := Parts(f);
    JoinLength(p);
    assert p[1..][1..] == p[2..] && p[2..][1..] == p[3..] && p[3..][1..] == p[4..] && p[4..][1..] == p[5..]
      && p[5..][1..] == [];
    assert Lengths(p) == |p[0].Text()| + Lengths(p[1..]);
    assert Lengths(p[1..]) == |p[1].Text()| + Lengths(p[2..]);
    assert Lengths(p[2..]) == |p[2].Text()| + Lengths(p[3..]);
    assert Lengths(p[3..]) == |p[3].Text()| + Lengths(p[4..]);
    assert Lengths(p[4..]) == |p[4].Text()| + Lengths(p[5..]);
    assert Lengths(p[5..]) == |p[5].Text()|;
  }

  // ---------- The output ----------

  /** What is printed from position `i` of the format on: characters of the format, each
      on its own, and fields. */
  function Pieces(fmt: string, i: nat, args: seq<Arg>, long: Long): (ps: seq<string>)
    decreases |fmt| - i
  {
    if i >= |fmt| then []
    else if fmt[i] != '%' then [[fmt[i]]] + Pieces(fmt, i + 1, args, long)
    else
      var r := Scan(fmt, i + 1, PLAIN, args);
      if r.Stop? then []
      else
        var c := Convert(r.ch, r.spec, r.args, long);
        (if c.0 == [] then [] else [FieldText(c.0[0])]) + Pieces(fmt, r.next, c.1, long)
  }

  function Concat(ps: seq<string>): (s: string) { if ps == [] then "" else ps[0] + Concat(ps[1..]) }

  /** Everything that is printed. */
  function Output(fmt: string, args: seq<Arg>, long: Long): (s: string) { Concat(Pieces(fmt, 0, args, long)) }

  lemma {:induction false} ConcatParts(ps: seq<string>, qs: seq<string>)
    ensures Concat(ps + qs) == Concat(ps) + Concat(qs)
  {
    if ps == [] {
      assert ps + qs == qs;
    } else {
      assert (ps + qs)[1..] == ps[1..] + qs;
      ConcatParts(ps[1..], qs);
    }
  }
}
