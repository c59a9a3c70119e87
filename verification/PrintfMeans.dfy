/** What the text of a directive means: sign, prefix, digits, padding and case, as section
    7.19.6.1 of the C standard (ISO/IEC 9899:1999) describes them. */
module PrintfMeans {
  import opened Numerals
  import opened Printf
  import opened PrintfScan
  import opened Snprintf

  // ---------- Layout ----------

  /** Blanks, a prefix, the body and blanks. There are no more blanks than the width asks
      for, and they stand on the side that the minus flag says. */
  ghost predicate Laid(s: string, sp: Spec, lead: nat, prefix: string, body: string, trail: nat) {
    && s == Pad(' ', lead) + prefix + body + Pad(' ', trail)
    && |s| == (if sp.width > |prefix| + |body| then sp.width else |prefix| + |body|)
    && (lead > 0 ==> !sp.ladjust) && (trail > 0 ==> sp.ladjust)
  }

  /** Digits of a number, at least so many, and no zero in front of those. */
  ghost predicate Numeral(body: string, v: nat, b: nat, upper: bool, least: nat) {
    && (forall i :: 0 <= i < |body| ==> DigitOf(body[i], b))
    && (forall c :: c in body ==> if upper then !('a' <= c <= 'f') else !('A' <= c <= 'F'))
    && Value(body, b) == v
    && |body| >= least && (|body| > least ==> body[0] != '0')
  }

  /** The digits that are asked for: by the precision, or else by the zero flag, which fills
      the width, unless the field is adjusted to the left. */
  function Least(sp: Spec, prefix: string): nat {
    if sp.prec >= 0 then sp.prec
    else if sp.zeropad && !sp.ladjust && sp.width > |prefix| + 1 then sp.width - |prefix|
    else 1
  }

  /** The six parts of a field, with both kinds of zeros together. */
  lemma FieldLayout(f: Field)
    ensures var n := f.width - Printf.RealSize(f);
      FieldText(f) == Pad(' ', if !f.ladjust && !f.zeropad then n else 0) + f.prefix
        + (Pad('0', Nat(if !f.ladjust && f.zeropad then n else 0) + Nat(f.dprec - |f.text|)) + f.text)
        + Pad(' ', if f.ladjust then n else 0)
  {
    hide Pad; hide Join; hide Parts; hide Part.Text; hide Printf.RealSize;
    var n := f.width - Printf.RealSize(f);
    var a, b, c := (if !f.ladjust && !f.zeropad then n else 0), (if !f.ladjust && f.zeropad then n else 0),
      (if f.ladjust then n else 0);
    PartTexts(f);
    JoinSix(Parts(f));
    PadJoin('0', b, f.dprec - |f.text|);
    Group(Pad(' ', a), f.prefix, Pad('0', b), Pad('0', f.dprec - |f.text|), f.text, Pad(' ', c));
  }

  lemma Group(a: string, p: string, y: string, z: string, t: string, c: string)
    ensures a + (p + (y + (z + (t + (c + ""))))) == a + p + ((y + z) + t) + c
  {
    assert c + "" == c;
    assert y + (z + (t + c)) == ((y + z) + t) + c;
    assert a + (p + (((y + z) + t) + c)) == a + p + ((y + z) + t) + c;
  }

  // ---------- Numbers ----------

  /** A field of a number: its digits, behind as many zeros as are missing. */
  lemma NumberIsLaid(sp: Spec, v: nat, base: Base, upper: bool, hexPrefix: bool)
      returns (lead: nat, body: string, trail: nat)
    requires sp.prec >= -1 && !(base.Oct? && sp.alt) && (upper ==> base.Hex?)
    ensures var f := NumberField(sp, v, base, upper, hexPrefix);
      && Laid(FieldText(f), sp, lead, f.prefix, body, trail)
      && Numeral(body, v, base.Num(), upper, Least(sp, f.prefix))
  {
    hide FieldText; hide Digits; hide Value; hide Pad; hide Laid;
    var f := NumberField(sp, v, base, upper, hexPrefix);
    var zeros;
    lead, zeros, trail := FieldIsLaid(sp, f);
    body := Pad('0', zeros) + f.text;
    DigitsAreNumeral(f.text, v, base.Num(), upper, zeros, sp.prec == 0);
  }

  /** Zeros fill the field up to the precision, or else up to the width if the zero flag
      says so; blanks do the rest. */
  lemma FieldIsLaid(sp: Spec, f: Field) returns (lead: nat, zeros: nat, trail: nat)
    requires f.width == sp.width && f.dprec == sp.prec >= -1 && f.ladjust == sp.ladjust
    requires f.zeropad == (sp.zeropad && sp.prec < 0)
    ensures Laid(FieldText(f), sp, lead, f.prefix, Pad('0', zeros) + f.text, trail)
    ensures zeros == Nat(
      (if sp.prec >= 0 then sp.prec else if sp.zeropad && !sp.ladjust then sp.width - |f.prefix| else 0) - |f.text|)
  {
    hide FieldText; hide Pad;
    var n := f.width - Printf.RealSize(f);
    zeros := Nat(if !f.ladjust && f.zeropad then n else 0) + Nat(f.dprec - |f.text|);
    lead, trail := Nat(if !f.ladjust && !f.zeropad then n else 0), Nat(if f.ladjust then n else 0);
    FieldLayout(f);
    FieldSizeIsExact(f);
    SamePad(' ', if !f.ladjust && !f.zeropad then n else 0);
    SamePad(' ', if f.ladjust then n else 0);
  }

  lemma SamePad(c: char, n: int)
    ensures Pad(c, Nat(n)) == Pad(c, n)
  {}

  lemma DigitsAreNumeral(text: string, v: nat, b: nat, upper: bool, zeros: nat, none: bool)
    requires (b == 8 || b == 10 || b == 16) && text == if v != 0 || !none then Digits(v, b, upper) else ""
    ensures var body := Pad('0', zeros) + text;
      && (forall i :: 0 <= i < |body| ==> DigitOf(body[i], b))
      && (forall c :: c in body ==> if upper then !('a' <= c <= 'f') else !('A' <= c <= 'F'))
      && Value(body, b) == v
      && (zeros == 0 && |body| > 1 ==> body[0] != '0') && (v != 0 ==> text != [] && text[0] != '0')
  {
    hide Digits; hide Value; hide Pad; hide DigitOf;
    DigitsValue(v, b, upper);
    DigitsCase(v, b, upper);
    LeadingDigit(v, b, upper);
    ValueEmpty(b);
    ZerosAddNothing(text, b, zeros);
    if zeros == 0 { assert Pad('0', zeros) + text == text; }
    if v == 0 && !none { ZeroIsOneDigit(b, upper); }
  }

  lemma ZeroIsOneDigit(b: nat, upper: bool)
    requires 2 <= b <= 16
    ensures Digits(0, b, upper) == "0"
  {}

  /** Digits of an octal number with the alternate form: the first one is a zero, which is
      there besides the digits asked for only if there was none among them. */
  ghost predicate ZeroFirst(body: string, v: nat, least: nat) {
    && body != [] && body[0] == '0'
    && (forall i :: 0 <= i < |body| ==> DigitOf(body[i], 8)) && Value(body, 8) == v
    && |body| >= least && (|body| > least && |body| > 1 ==> body[1] != '0')
  }

  /** The standard asks for a zero in the alternate form of octal. It is missing exactly if
      the number is zero and the precision, too. */
  lemma OctalIsLaid(sp: Spec, v: nat) returns (lead: nat, body: string, trail: nat)
    requires sp.prec >= -1 && sp.alt && sp.sign == NUL
    ensures var f := NumberField(sp, v, Oct, false, false);
      && Laid(FieldText(f), sp, lead, "", body, trail)
      && (if v == 0 && sp.prec == 0 then body == "" else ZeroFirst(body, v, Least(sp, "")))
  {
    hide FieldText; hide Digits; hide Value; hide Pad; hide Laid;
    var f := NumberField(sp, v, Oct, false, false);
    var zeros;
    lead, zeros, trail := FieldIsLaid(sp, f);
    body := Pad('0', zeros) + f.text;
    LeadingDigit(v, 8, false);
    ZeroIsOneDigit(8, false);
    if v == 0 {
      DigitsAreNumeral(f.text, v, 8, false, zeros, sp.prec == 0);
    } else {
      var ds := Digits(v, 8, false);
      OneMoreZero(zeros, ds);
      DigitsAreNumeral(ds, v, 8, false, zeros + 1, false);
    }
  }

  lemma OneMoreZero(zeros: nat, ds: string)
    ensures Pad('0', zeros) + ("0" + ds) == Pad('0', zeros + 1) + ds
  {}

  // ---------- Directives ----------

  /** A directive as it is written in a format. */
  function Format(sp: Spec, ch: char): string { "%" + Directive(sp, ch) }

  lemma Alone(sp: Spec, ch: char, args: seq<Arg>, long: Long)
    requires Writable(sp) && Ends(ch)
    ensures var c := Printf.Convert(ch, sp, args, long).0;
      Output(Format(sp, ch), args, long) == if c == [] then "" else FieldText(c[0])
  {
    hide Directive; hide Scan; hide Printf.Convert; hide FieldText; hide Ends;
    var d, fmt := Directive(sp, ch), Format(sp, ch);
    DirectiveIsRead("%", sp, ch, "", args);
    assert "%" + d + "" == fmt;
    PiecesStep(fmt, 0, args, long);
    var c := Printf.Convert(ch, sp, args, long);
    PiecesStep(fmt, |fmt|, c.1, long);
    if c.0 != [] { Printed("", FieldText(c.0[0]), []); }
  }

  /** The length of an integer argument; D, O and U take a long. */
  function Taken(sp: Spec, ch: char): Length {
    if ch in "DOU" then sp.length.(long := true) else sp.length
  }

  /** The numbers that an argument can be, for each length there is in the standard. */
  lemma SizesAre(long: Long)
    ensures SizeOf(DEFAULT, long) == 0x1_0000_0000 && SizeOf(DEFAULT.(short := true), long) == 0x1_0000
    ensures SizeOf(DEFAULT.(long := true), long) == long
    ensures SizeOf(DEFAULT.(quad := true), long) == 0x1_0000_0000_0000_0000
    ensures SizeOf(DEFAULT.(max := true), long) == 0x1_0000_0000_0000_0000
    ensures SizeOf(DEFAULT.(ptr := true), long) == long && SizeOf(DEFAULT.(size := true), long) == long
  {}

  /** `w` is what is left of `v` in an unsigned or signed variable. */
  predicate Fits(w: int, v: int, size: nat, signed: bool)
    requires size > 0
  {
    (v - w) % size == 0 && if signed then -(size as int) <= 2 * w < size as int else 0 <= w < size
  }

  lemma Remains(v: int, size: nat)
    requires size == 256 || size == SHORT || size == INT || size == QUAD
    ensures Fits(Signed(v, size), v, size, true) && Fits(Unsigned(v, size), v, size, false)
  {
    var u := v % size;
    assert (v - u) % size == 0 && (v - u + size) % size == 0 by {
      Byte(v);
      Short(v);
      Int32(v);
      Int64(v);
    }
    assert v - (u - size) == v - u + size;
  }

  lemma Byte(v: int)
    ensures (v - v % 0x100) % 0x100 == 0 && (v - v % 0x100 + 0x100) % 0x100 == 0
  {}

  lemma Short(v: int)
    ensures (v - v % 0x1_0000) % 0x1_0000 == 0 && (v - v % 0x1_0000 + 0x1_0000) % 0x1_0000 == 0
  {}

  lemma Int32(v: int)
    ensures (v - v % 0x1_0000_0000) % 0x1_0000_0000 == 0
    ensures (v - v % 0x1_0000_0000 + 0x1_0000_0000) % 0x1_0000_0000 == 0
  {}

  lemma Int64(v: int)
    ensures (v - v % 0x1_0000_0000_0000_0000) % 0x1_0000_0000_0000_0000 == 0
    ensures (v - v % 0x1_0000_0000_0000_0000 + 0x1_0000_0000_0000_0000) % 0x1_0000_0000_0000_0000 == 0
  {}

  lemma SizesOnly(n: Length, long: Long)
    ensures var size := SizeOf(n, long); size == SHORT || size == INT || size == QUAD
  {}

  /** d and i: a minus sign exactly if the number is negative, otherwise the sign flag, and
      the decimal digits of its absolute value. */
  lemma SignedText(sp: Spec, ch: char, args: seq<Arg>, long: Long)
      returns (w: int, lead: nat, body: string, trail: nat)
    requires Writable(sp) && ch in "dDi" && args != [] && args[0].Int?
    ensures Fits(w, args[0].v, SizeOf(Taken(sp, ch), long), true)
    ensures var prefix := if w < 0 then "-" else if sp.sign == NUL then "" else [sp.sign];
      && Laid(Output(Format(sp, ch), args, long), sp, lead, prefix, body, trail)
      && Numeral(body, if w < 0 then -w else w, 10, false, Least(sp, prefix))
  {
    hide Directive; hide Laid; hide Numeral; hide FieldText; hide Output; hide Least; hide SizeOf; hide Signed;
    hide Fits; hide NumberText;
    Alone(sp, ch, args, long);
    var size := SizeOf(Taken(sp, ch), long);
    w := Signed(args[0].v, size);
    SizesOnly(Taken(sp, ch), long);
    Remains(args[0].v, size);
    var signed := sp.(sign := if w < 0 then '-' else sp.sign);
    lead, body, trail := NumberIsLaid(signed, if w < 0 then -w else w, Dec, false, false);
    SameLayout(signed, sp);
  }

  lemma SameLayout(a: Spec, b: Spec)
    requires a == b.(sign := a.sign)
    ensures forall prefix :: Least(a, prefix) == Least(b, prefix)
    ensures forall s, lead, prefix, body, trail ::
      Laid(s, a, lead, prefix, body, trail) ==> Laid(s, b, lead, prefix, body, trail)
  {
    hide Pad;
  }

  /** u, x and X, p, and o without the alternate form: no sign; 0x or 0X in front of a
      pointer, or of a number that is not zero in the alternate form; digits in the case
      of the conversion. */
  lemma UnsignedText(sp: Spec, ch: char, args: seq<Arg>, long: Long)
      returns (w: nat, lead: nat, body: string, trail: nat)
    requires Writable(sp) && ch in "uUoOxXp" && args != [] && args[0].Int? && !(ch in "oO" && sp.alt)
    ensures Fits(w, args[0].v, if ch == 'p' then long else SizeOf(Taken(sp, ch), long), false)
    ensures var prefix :=
        if ch == 'p' || (ch == 'x' && sp.alt && w != 0) then "0x"
        else if ch == 'X' && sp.alt && w != 0 then "0X"
        else "";
      && Laid(Output(Format(sp, ch), args, long), sp, lead, prefix, body, trail)
      && Numeral(body, w, if ch in "oO" then 8 else if ch in "uU" then 10 else 16, ch == 'X', Least(sp, prefix))
  {
    hide Directive; hide Laid; hide Numeral; hide FieldText; hide Output; hide Least; hide SizeOf; hide Unsigned;
    hide Fits; hide NumberText; hide Printf.Convert; hide Ends; hide Taken;
    var size := if ch == 'p' then long else SizeOf(Taken(sp, ch), long);
    w := Unsigned(args[0].v, size);
    SizesOnly(Taken(sp, ch), long);
    Remains(args[0].v, size);
    var bare, base := sp.(sign := NUL), if ch in "oO" then Oct else if ch in "uU" then Dec else Hex;
    var hexPrefix := ch == 'p' || (ch in "xX" && sp.alt && w != 0);
    UnsignedIsNumber(sp, ch, args, long, w, base, hexPrefix);
    Alone(sp, ch, args, long);
    lead, body, trail := NumberIsLaid(bare, w, base, ch == 'X', hexPrefix);
    SameLayout(bare, sp);
  }

  lemma UnsignedIsNumber(sp: Spec, ch: char, args: seq<Arg>, long: Long, w: nat, base: Base, hexPrefix: bool)
    requires ch in "uUoOxXp" && args != [] && args[0].Int?
    requires w == Unsigned(args[0].v, if ch == 'p' then long else SizeOf(Taken(sp, ch), long))
    requires base == if ch in "oO" then Oct else if ch in "uU" then Dec else Hex
    requires hexPrefix == (ch == 'p' || (ch in "xX" && sp.alt && w != 0))
    ensures Ends(ch)
    ensures Printf.Convert(ch, sp, args, long).0 == [NumberField(sp.(sign := NUL), w, base, ch == 'X', hexPrefix)]
  {
    hide NumberField; hide SizeOf; hide Unsigned;
  }

  /** o in the alternate form. */
  lemma OctalText(sp: Spec, ch: char, args: seq<Arg>, long: Long)
      returns (w: nat, lead: nat, body: string, trail: nat)
    requires Writable(sp) && ch in "oO" && args != [] && args[0].Int? && sp.alt
    ensures Fits(w, args[0].v, SizeOf(Taken(sp, ch), long), false)
    ensures Laid(Output(Format(sp, ch), args, long), sp, lead, "", body, trail)
    ensures if w == 0 && sp.prec == 0 then body == "" else ZeroFirst(body, w, Least(sp, ""))
  {
    hide Directive; hide Laid; hide ZeroFirst; hide FieldText; hide Output; hide Least; hide SizeOf; hide Unsigned;
    hide Fits; hide NumberText;
    Alone(sp, ch, args, long);
    var size := SizeOf(Taken(sp, ch), long);
    w := Unsigned(args[0].v, size);
    SizesOnly(Taken(sp, ch), long);
    Remains(args[0].v, size);
    var bare := sp.(sign := NUL);
    lead, body, trail := OctalIsLaid(bare, w);
    SameLayout(bare, sp);
  }

  // ---------- Text ----------

  /** Text in a field: what is missing from the width is filled on the right with blanks, or
      on the left with blanks or zeros. */
  ghost predicate Filled(s: string, sp: Spec, text: string) {
    var k := sp.width - |text|;
    s == if sp.ladjust then text + Pad(' ', k) else Pad(if sp.zeropad then '0' else ' ', k) + text
  }

  lemma TextIsFilled(sp: Spec, text: string)
    ensures Filled(FieldText(TextField(sp, text)), sp, text)
  {
    hide FieldText; hide Pad;
    var f := TextField(sp, text);
    var n := f.width - Printf.RealSize(f);
    FieldLayout(f);
    NoPad();
    SamePad('0', n);
    var a, z, c := Pad(' ', if !f.ladjust && !f.zeropad then n else 0),
      Pad('0', Nat(if !f.ladjust && f.zeropad then n else 0) + Nat(f.dprec - |text|)),
      Pad(' ', if f.ladjust then n else 0);
    assert FieldText(f) == a + "" + (z + text) + c;
    if f.ladjust {
      assert a == "" && z == "";
      assert a + "" + (z + text) + c == text + c;
    } else if f.zeropad {
      assert a == "" && c == "";
      assert a + "" + (z + text) + c == z + text;
    } else {
      assert c == "" && z == "";
      assert a + "" + (z + text) + c == a + text;
    }
  }

  lemma NoPad()
    ensures Pad(' ', 0) == "" && Pad('0', 0) == ""
  {}

  /** s: the string, or its beginning if it is longer than the precision. */
  lemma StringText(sp: Spec, args: seq<Arg>, long: Long) returns (text: string)
    requires Writable(sp) && args != [] && !args[0].Int?
    ensures var s := if args[0].Str? then args[0].s else "(null)";
      && text <= s && |text| == (if 0 <= sp.prec < |s| then sp.prec else |s|)
      && Filled(Output(Format(sp, 's'), args, long), sp, text)
  {
    hide Directive; hide Filled; hide FieldText; hide Output;
    Alone(sp, 's', args, long);
    var s := StrArg(args);
    text := if 0 <= sp.prec < |s| then s[..sp.prec] else s;
    TextIsFilled(sp, text);
  }

  /** c: the one character with the code that is left of the number in a byte. */
  lemma CharText(sp: Spec, args: seq<Arg>, long: Long) returns (c: char)
    requires Writable(sp) && args != [] && args[0].Int?
    ensures Fits(c as int, args[0].v, 256, false) && Filled(Output(Format(sp, 'c'), args, long), sp, [c])
  {
    hide Directive; hide Filled; hide FieldText; hide Output;
    Alone(sp, 'c', args, long);
    c := Unsigned(args[0].v, 256) as char;
    Remains(args[0].v, 256);
    TextIsFilled(sp, [c]);
  }

  /** n prints nothing; what is no conversion, such as a percent sign, prints itself. */
  lemma OtherText(sp: Spec, ch: char, args: seq<Arg>, long: Long)
    requires Writable(sp) && Ends(ch) && ch !in "cdDioOpsuUxX"
    ensures ch == 'n' ==> Output(Format(sp, ch), args, long) == ""
    ensures ch != 'n' ==> Filled(Output(Format(sp, ch), args, long), sp, [ch])
  {
    hide Directive; hide Filled; hide FieldText; hide Output;
    Alone(sp, ch, args, long);
    TextIsFilled(sp, [ch]);
  }

  // ---------- Whole formats ----------

  /** A piece of a format: a character that stands for itself, or a directive. */
  datatype Item = Plain(c: char) | Dir(sp: Spec, ch: char) {
    predicate Proper() { if Plain? then c != '%' else Writable(sp) && Ends(ch) }

    function Text(): string { if Plain? then [c] else Format(sp, ch) }

    /** The arguments that are left: every conversion takes one. */
    function After(args: seq<Arg>): seq<Arg> {
      if Dir? && ch in "cdDinoOpsuUxX" then (if args == [] then [] else args[1..]) else args
    }
  }

  function Written(items: seq<Item>): string { if items == [] then "" else items[0].Text() + Written(items[1..]) }

  lemma ItemStep(before: string, item: Item, after: string, args: seq<Arg>, long: Long)
    requires item.Proper()
    ensures var fmt := before + item.Text() + after;
      Concat(Pieces(fmt, |before|, args, long)) ==
      Output(item.Text(), args, long) + Concat(Pieces(fmt, |before| + |item.Text()|, item.After(args), long))
  {
    hide Pieces; hide Concat; hide Format; hide Ends; hide Output; hide Item.After; hide Scan;
    var fmt := before + item.Text() + after;
    if item.Plain? {
      PlainTakesNone(item, args);
      CharStep(fmt, |before|, item.c, args, long);
    } else {
      ReadInside(before, item.sp, item.ch, after, args);
      DirStep(fmt, |before|, |before| + |item.Text()|, item.sp, item.ch, args, long);
    }
  }

  lemma PlainTakesNone(item: Item, args: seq<Arg>)
    requires item.Plain?
    ensures item.After(args) == args
  {}

  lemma Cons(p: string, ps: seq<string>)
    ensures Concat([p] + ps) == p + Concat(ps)
  {
    assert ([p] + ps)[1..] == ps;
  }

  lemma CharStep(fmt: string, i: nat, c: char, args: seq<Arg>, long: Long)
    requires i < |fmt| && fmt[i] == c != '%'
    ensures Concat(Pieces(fmt, i, args, long)) == Output([c], args, long) + Concat(Pieces(fmt, i + 1, args, long))
  {
    hide Pieces; hide Concat; hide Output; hide Scan;
    PiecesStep(fmt, i, args, long);
    Cons([c], Pieces(fmt, i + 1, args, long));
    PlainAlone(c, args, long);
  }

  lemma ReadInside(before: string, sp: Spec, ch: char, after: string, args: seq<Arg>)
    requires Writable(sp) && Ends(ch)
    ensures var fmt, i := before + Format(sp, ch) + after, |before|;
      && i < |fmt| && fmt[i] == '%'
      && Scan(fmt, i + 1, PLAIN, args) == Conversion(ch, i + |Format(sp, ch)|, sp, args)
  {
    hide Directive; hide Scan; hide Ends;
    DirectiveIsRead(before + "%", sp, ch, after, args);
    assert (before + "%") + Directive(sp, ch) + after == before + Format(sp, ch) + after;
  }

  lemma DirStep(fmt: string, i: nat, j: nat, sp: Spec, ch: char, args: seq<Arg>, long: Long)
    requires Writable(sp) && Ends(ch)
    requires i < |fmt| && fmt[i] == '%' && Scan(fmt, i + 1, PLAIN, args) == Conversion(ch, j, sp, args)
    ensures Concat(Pieces(fmt, i, args, long)) ==
      Output(Format(sp, ch), args, long) + Concat(Pieces(fmt, j, Dir(sp, ch).After(args), long))
  {
    hide Format; hide Scan; hide Printf.Convert; hide FieldText; hide Ends; hide Pieces; hide Concat; hide Output;
    hide Item.After;
    PiecesStep(fmt, i, args, long);
    Alone(sp, ch, args, long);
    TakesOne(sp, ch, args, long);
    var c := Printf.Convert(ch, sp, args, long);
    var rest := Pieces(fmt, j, c.1, long);
    if c.0 != [] { Cons(FieldText(c.0[0]), rest); } else { assert "" + Concat(rest) == Concat(rest); }
  }

  lemma PlainAlone(c: char, args: seq<Arg>, long: Long)
    requires c != '%'
    ensures Output([c], args, long) == [c]
  {
    hide Scan; hide Printf.Convert; hide FieldText;
    PiecesStep([c], 0, args, long);
    PiecesStep([c], 1, args, long);
    Printed("", [c], []);
  }

  lemma TakesOne(sp: Spec, ch: char, args: seq<Arg>, long: Long)
    ensures Printf.Convert(ch, sp, args, long).1 == Dir(sp, ch).After(args)
  {
    hide NumberField; hide SizeOf; hide Unsigned; hide Signed; hide SignedField; hide TextField;
  }

  lemma {:induction false} PrintedFrom(before: string, items: seq<Item>, args: seq<Arg>, long: Long)
    requires forall item :: item in items ==> item.Proper()
    ensures Concat(Pieces(before + Written(items), |before|, args, long)) == Output(Written(items), args, long)
    decreases |items|
  {
    hide Item.Text; hide Item.After; hide Pieces; hide Concat; hide Item.Proper;
    if items == [] {
      NothingLeft(before, args, long);
    } else {
      var h, t := items[0], Written(items[1..]);
      assert before + Written(items) == before + h.Text() + t;
      assert Written(items) == "" + h.Text() + t;
      ItemStep(before, h, t, args, long);
      ItemStep("", h, t, args, long);
      PrintedFrom(before + h.Text(), items[1..], h.After(args), long);
      PrintedFrom("" + h.Text(), items[1..], h.After(args), long);
    }
  }

  lemma NothingLeft(before: string, args: seq<Arg>, long: Long)
    ensures Concat(Pieces(before + "", |before|, args, long)) == "" == Output("", args, long)
  {}

  /** A format prints what its pieces print on their own, one after the other, each with
      the arguments that those before it have left. */
  lemma PiecesInTurn(item: Item, items: seq<Item>, args: seq<Arg>, long: Long)
    requires forall i :: i in [item] + items ==> i.Proper()
    ensures Output(Written([item] + items), args, long) ==
      Output(item.Text(), args, long) + Output(Written(items), item.After(args), long)
  {
    hide Item.Text; hide Item.After; hide Pieces; hide Concat; hide Item.Proper;
    var all := [item] + items;
    assert all[0] == item && all[1..] == items && item in all;
    assert Written(all) == "" + item.Text() + Written(items);
    ItemStep("", item, Written(items), args, long);
    PrintedFrom("" + item.Text(), items, item.After(args), long);
  }
}
