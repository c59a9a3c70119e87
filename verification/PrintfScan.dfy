/** Reading directives: for every combination of flags, width, precision and length
    there is a directive, and the scanner of kprintf reads exactly that combination. */
module PrintfScan {
  import opened Numerals
  import opened Printf

  // ---------- Writing a directive ----------

  function When(b: bool, s: string): string { if b then s else "" }

  /** Flags, width, precision and length in front of what follows them. */
  function FlagText(sp: Spec, rest: string): (s: string)
    ensures |s| >= |rest|
  {
    When(sp.alt, "#") + (When(sp.ladjust, "-") + MoreFlags(sp, rest))
  }

  function MoreFlags(sp: Spec, rest: string): (s: string)
    ensures |s| >= |rest|
  {
    When(sp.zeropad, "0") + (When(sp.sign != NUL, [sp.sign]) + rest)
  }

  function WidthText(width: nat): string { When(width > 0, Digits(width, 10, false)) }

  function PrecisionText(prec: int): string { if prec >= 0 then "." + Digits(prec, 10, false) else "" }

  /** The length flags in the order in which they are written. */
  const LENGTHS := ['h', 'l', 'q', 'j', 't', 'z']

  predicate Has(n: Length, c: char) {
    match c
    case 'h' => n.short
    case 'j' => n.max
    case 'l' => n.long
    case 'q' => n.quad
    case 't' => n.ptr
    case _ => n.size
  }

  /** Those of some length flags that are set, and the conversion character. */
  function LengthText(n: Length, flags: string, ch: char): (s: string)
    ensures s != []
  {
    if flags == [] then [ch] else When(Has(n, flags[0]), [flags[0]]) + LengthText(n, flags[1..], ch)
  }

  function Directive(sp: Spec, ch: char): string {
    FlagText(sp, WidthText(sp.width) + (PrecisionText(sp.prec) + LengthText(sp.length, LENGTHS, ch)))
  }

  /** What can be written: a space or a plus as sign, and no precision other than -1. */
  predicate Writable(sp: Spec) { sp.sign in {NUL, ' ', '+'} && sp.prec >= -1 }

  /** Characters that end a directive. */
  predicate Ends(ch: char) { ch !in " #*-+.0123456789hjlqtz" }

  // ---------- Positions ----------

  ghost predicate At(fmt: string, i: nat, s: string) { i + |s| <= |fmt| && fmt[i..i + |s|] == s }

  lemma AtSplit(fmt: string, i: nat, a: string, b: string)
    requires At(fmt, i, a + b)
    ensures At(fmt, i, a) && At(fmt, i + |a|, b)
  {
    assert fmt[i..i + |a|] == (a + b)[..|a|];
    assert fmt[i + |a|..i + |a| + |b|] == (a + b)[|a|..];
  }

  lemma AtChar(fmt: string, i: nat, s: string)
    requires At(fmt, i, s) && s != []
    ensures i < |fmt| && fmt[i] == s[0]
  {
    assert fmt[i..i + |s|][0] == fmt[i];
  }

  // ---------- Numbers ----------

  lemma {:induction false} NumberPart(fmt: string, i: nat, s: string, k: nat)
    requires At(fmt, i, s) && k <= |s| && forall j :: 0 <= j < |s| ==> DigitOf(s[j], 10)
    ensures Number(fmt, i, 0) == Number(fmt, i + k, Value(s[..k], 10))
    decreases k
  {
    hide Value;
    if k == 0 {
      ValueEmpty(10);
      assert s[..0] == [];
    } else {
      NumberPart(fmt, i, s, k - 1);
      ValueStep(s, k - 1, 10);
      assert fmt[i..i + |s|][k - 1] == fmt[i + k - 1];
      assert DigitOf(s[k - 1], 10);
    }
  }

  /** A printed number is read back as width or precision. */
  lemma NumberIsRead(fmt: string, i: nat, n: nat)
    requires At(fmt, i, Digits(n, 10, false))
    requires var e := i + |Digits(n, 10, false)|; e < |fmt| ==> !IsDigit(fmt[e])
    ensures Number(fmt, i, 0) == (n, i + |Digits(n, 10, false)|)
  {
    hide Digits; hide Value;
    var s := Digits(n, 10, false);
    DigitsValue(n, 10, false);
    NumberPart(fmt, i, s, |s|);
    assert s[..|s|] == s;
  }

  // ---------- Steps of the scanner ----------

  lemma FlagStep(fmt: string, i: nat, sp: Spec, args: seq<Arg>)
    requires i < |fmt|
    ensures fmt[i] == '#' ==> Scan(fmt, i, sp, args) == Scan(fmt, i + 1, sp.(alt := true), args)
    ensures fmt[i] == '-' ==> Scan(fmt, i, sp, args) == Scan(fmt, i + 1, sp.(ladjust := true), args)
    ensures fmt[i] == '0' ==> Scan(fmt, i, sp, args) == Scan(fmt, i + 1, sp.(zeropad := true), args)
    ensures fmt[i] == '+' ==> Scan(fmt, i, sp, args) == Scan(fmt, i + 1, sp.(sign := '+'), args)
    ensures fmt[i] == ' ' && sp.sign == NUL ==> Scan(fmt, i, sp, args) == Scan(fmt, i + 1, sp.(sign := ' '), args)
    ensures Ends(fmt[i]) ==> Scan(fmt, i, sp, args) == Conversion(fmt[i], i + 1, sp, args)
  {
    hide Number;
  }

  /** A length flag; a second l makes a q of the first. */
  lemma LengthStep(fmt: string, i: nat, sp: Spec, args: seq<Arg>)
    requires i < |fmt| && IsLength(fmt[i])
    ensures var twice := fmt[i] == 'l' && i + 1 < |fmt| && fmt[i + 1] == 'l';
      Scan(fmt, i, sp, args) ==
      if twice then Scan(fmt, i + 2, sp.(length := Longer(sp.length, 'q')), args)
      else Scan(fmt, i + 1, sp.(length := Longer(sp.length, fmt[i])), args)
  {
    hide Number; hide Longer;
  }

  lemma NumberStep(fmt: string, i: nat, sp: Spec, args: seq<Arg>)
    requires i < |fmt|
    ensures fmt[i] == '.' && i + 1 < |fmt| && fmt[i + 1] != '*' ==>
              var n := Number(fmt, i + 1, 0); Scan(fmt, i, sp, args) == Scan(fmt, n.1, sp.(prec := n.0), args)
    ensures IsDigit(fmt[i]) && fmt[i] != '0' ==>
              var n := Number(fmt, i, 0); n.1 > i && Scan(fmt, i, sp, args) == Scan(fmt, n.1, sp.(width := n.0), args)
  {
    hide Number;
  }

  /** One optional flag. */
  lemma OptionalFlag(fmt: string, i: nat, on: bool, c: char, rest: string, sp: Spec, sp': Spec, args: seq<Arg>)
    requires At(fmt, i, When(on, [c]) + rest)
    requires !on ==> sp' == sp
    requires on && i < |fmt| && fmt[i] == c ==> Scan(fmt, i, sp, args) == Scan(fmt, i + 1, sp', args)
    ensures At(fmt, i + |When(on, [c])|, rest) && Scan(fmt, i, sp, args) == Scan(fmt, i + |When(on, [c])|, sp', args)
  {
    hide Scan;
    AtSplit(fmt, i, When(on, [c]), rest);
    if on { AtChar(fmt, i, [c]); }
  }

  lemma FlagsAreRead(fmt: string, i: nat, sp: Spec, rest: string, args: seq<Arg>)
    requires Writable(sp) && At(fmt, i, FlagText(sp, rest))
    ensures var sp' := PLAIN.(alt := sp.alt, ladjust := sp.ladjust, zeropad := sp.zeropad, sign := sp.sign);
      var j := i + |FlagText(sp, rest)| - |rest|;
      At(fmt, j, rest) && Scan(fmt, i, PLAIN, args) == Scan(fmt, j, sp', args)
  {
    hide Scan; hide At; hide MoreFlags;
    var s1 := PLAIN.(alt := sp.alt);
    var s2 := s1.(ladjust := sp.ladjust);
    var i1 := i + |When(sp.alt, "#")|;
    var i2 := i1 + |When(sp.ladjust, "-")|;
    if i < |fmt| { FlagStep(fmt, i, PLAIN, args); }
    OptionalFlag(fmt, i, sp.alt, '#', When(sp.ladjust, "-") + MoreFlags(sp, rest), PLAIN, s1, args);
    if i1 < |fmt| { FlagStep(fmt, i1, s1, args); }
    OptionalFlag(fmt, i1, sp.ladjust, '-', MoreFlags(sp, rest), s1, s2, args);
    MoreFlagsAreRead(fmt, i2, sp, rest, s2, args);
  }

  lemma MoreFlagsAreRead(fmt: string, i: nat, sp: Spec, rest: string, s2: Spec, args: seq<Arg>)
    requires Writable(sp) && At(fmt, i, MoreFlags(sp, rest)) && s2 == PLAIN.(alt := sp.alt, ladjust := sp.ladjust)
    ensures var sp' := PLAIN.(alt := sp.alt, ladjust := sp.ladjust, zeropad := sp.zeropad, sign := sp.sign);
      var j := i + |MoreFlags(sp, rest)| - |rest|;
      At(fmt, j, rest) && Scan(fmt, i, s2, args) == Scan(fmt, j, sp', args)
  {
    hide Scan; hide At;
    var s3 := s2.(zeropad := sp.zeropad);
    var i3 := i + |When(sp.zeropad, "0")|;
    if i < |fmt| { FlagStep(fmt, i, s2, args); }
    OptionalFlag(fmt, i, sp.zeropad, '0', When(sp.sign != NUL, [sp.sign]) + rest, s2, s3, args);
    if i3 < |fmt| { FlagStep(fmt, i3, s3, args); }
    OptionalFlag(fmt, i3, sp.sign != NUL, sp.sign, rest, s3, s3.(sign := sp.sign), args);
  }

  predicate NoDigitFirst(s: string) { s != [] && !IsDigit(s[0]) }

  lemma WidthIsRead(fmt: string, i: nat, width: nat, rest: string, sp: Spec, args: seq<Arg>)
    requires At(fmt, i, WidthText(width) + rest) && NoDigitFirst(rest) && sp.width == 0
    ensures var n := |WidthText(width)|;
      At(fmt, i + n, rest) && Scan(fmt, i, sp, args) == Scan(fmt, i + n, sp.(width := width), args)
  {
    hide Scan; hide Digits; hide At;
    var ds := WidthText(width);
    AtSplit(fmt, i, ds, rest);
    AtChar(fmt, i + |ds|, rest);
    if width > 0 {
      AtChar(fmt, i, ds);
      LeadingDigit(width, 10, false);
      DigitsValue(width, 10, false);
      assert DigitOf(ds[0], 10);
      NumberIsRead(fmt, i, width);
      NumberStep(fmt, i, sp, args);
    }
  }

  lemma PrecisionIsRead(fmt: string, i: nat, prec: int, rest: string, sp: Spec, args: seq<Arg>)
    requires prec >= -1 && NoDigitFirst(rest) && sp.prec == -1
    requires At(fmt, i, PrecisionText(prec) + rest)
    ensures var n := |PrecisionText(prec)|;
      At(fmt, i + n, rest) && Scan(fmt, i, sp, args) == Scan(fmt, i + n, sp.(prec := prec), args)
  {
    hide Scan; hide Digits; hide At;
    var ds := PrecisionText(prec);
    AtSplit(fmt, i, ds, rest);
    AtChar(fmt, i + |ds|, rest);
    if prec >= 0 {
      AtChar(fmt, i, ds);
      AtSplit(fmt, i, ".", Digits(prec, 10, false));
      AtChar(fmt, i + 1, Digits(prec, 10, false));
      DigitsValue(prec, 10, false);
      assert DigitOf(Digits(prec, 10, false)[0], 10);
      NumberIsRead(fmt, i + 1, prec);
      NumberStep(fmt, i, sp, args);
    }
  }

  /** One optional length flag, which is not followed by an l. */
  lemma OptionalLength(fmt: string, i: nat, on: bool, c: char, rest: string, sp: Spec, n: Length, args: seq<Arg>)
    requires At(fmt, i, When(on, [c]) + rest) && IsLength(c) && rest != [] && (on && c == 'l' ==> rest[0] != 'l')
    requires n == if on then Longer(sp.length, c) else sp.length
    ensures var k := |When(on, [c])|;
      At(fmt, i + k, rest) && Scan(fmt, i, sp, args) == Scan(fmt, i + k, sp.(length := n), args)
  {
    hide Scan; hide Longer; hide IsLength; hide At;
    AtSplit(fmt, i, When(on, [c]), rest);
    if on {
      AtChar(fmt, i, [c]);
      AtChar(fmt, i + 1, rest);
      LengthStep(fmt, i, sp, args);
    }
  }

  /** A length with those of some flags that another one has. */
  function Adding(m: Length, n: Length, flags: string): Length
    decreases |flags|
  {
    if flags == [] then m else Adding(if Has(n, flags[0]) then Longer(m, flags[0]) else m, n, flags[1..])
  }

  lemma AddingAll(n: Length)
    ensures Adding(DEFAULT, n, LENGTHS) == n
  {
    var m1 := DEFAULT.(short := n.short);
    var m2 := m1.(long := n.long);
    var m3 := m2.(quad := n.quad);
    AddingOne(DEFAULT, n, 'h', ['l', 'q', 'j', 't', 'z']);
    AddingOne(m1, n, 'l', ['q', 'j', 't', 'z']);
    AddingOne(m2, n, 'q', ['j', 't', 'z']);
    AddingOne(m3, n, 'j', ['t', 'z']);
    AddingOne(m3.(max := n.max), n, 't', ['z']);
    AddingOne(m3.(max := n.max, ptr := n.ptr), n, 'z', []);
  }

  lemma AddingOne(m: Length, n: Length, c: char, flags: string)
    ensures Adding(m, n, [c] + flags) == Adding(if Has(n, c) then Longer(m, c) else m, n, flags)
  {
    assert ([c] + flags)[1..] == flags;
  }

  lemma {:induction false} LengthIsRead(fmt: string, i: nat, n: Length, flags: string, ch: char, sp: Spec,
      args: seq<Arg>)
    requires At(fmt, i, LengthText(n, flags, ch)) && Ends(ch)
    requires (forall c | c in flags :: IsLength(c)) && forall j, k :: 0 <= j < k < |flags| ==> flags[j] != flags[k]
    ensures Scan(fmt, i, sp, args) ==
      Conversion(ch, i + |LengthText(n, flags, ch)|, sp.(length := Adding(sp.length, n, flags)), args)
    decreases |flags|
  {
    hide Scan; hide At; hide Ends; hide Longer; hide IsLength; hide Has;
    if flags == [] {
      AtChar(fmt, i, [ch]);
      FlagStep(fmt, i, sp, args);
    } else {
      var on, c, rest := Has(n, flags[0]), flags[0], flags[1..];
      if c == 'l' { TextStart(n, rest, ch); }
      OptionalLength(fmt, i, on, c, LengthText(n, rest, ch), sp, if on then Longer(sp.length, c) else sp.length, args);
      LengthIsRead(fmt, i + |When(on, [c])|, n, rest, ch,
        sp.(length := if on then Longer(sp.length, c) else sp.length), args);
    }
  }

  lemma {:induction false} TextStart(n: Length, flags: string, ch: char)
    requires Ends(ch)
    ensures 'l' !in flags ==> LengthText(n, flags, ch)[0] != 'l'
    ensures (forall c | c in flags :: IsLength(c)) ==> NoDigitFirst(LengthText(n, flags, ch))
    decreases |flags|
  {
    hide Ends; hide Has;
    if flags == [] {
      EndsIsNotL(ch);
    } else {
      TextStart(n, flags[1..], ch);
      assert flags[0] in flags;
    }
  }

  lemma EndsIsNotL(ch: char)
    requires Ends(ch)
    ensures ch != 'l' && !IsDigit(ch)
  {
    assert 'l' in " #*-+.0123456789hjlqtz";
    DigitsAreListed(ch);
  }

  lemma DigitsAreListed(ch: char)
    ensures IsDigit(ch) ==> ch in " #*-+.0123456789hjlqtz"
  {
    if IsDigit(ch) {
      var d := DigitValue(ch);
      assert " #*-+.0123456789hjlqtz"[6 + d] == ch;
    }
  }

  lemma TextStarts(sp: Spec, ch: char)
    requires Ends(ch)
    ensures var l := LengthText(sp.length, LENGTHS, ch);
      NoDigitFirst(l) && NoDigitFirst(PrecisionText(sp.prec) + l)
  {
    hide Ends; hide Digits; hide LengthText;
    TextStart(sp.length, LENGTHS, ch);
  }

  /** Whatever stands before and after it, a directive is read as it was written. */
  lemma DirectiveIsRead(before: string, sp: Spec, ch: char, after: string, args: seq<Arg>)
    requires Writable(sp) && Ends(ch)
    ensures var d := Directive(sp, ch);
      Scan(before + d + after, |before|, PLAIN, args) == Conversion(ch, |before| + |d|, sp, args)
  {
    hide Scan; hide Digits; hide Ends; hide FlagText; hide At; hide LengthText; hide WidthText; hide PrecisionText;
    hide NoDigitFirst;
    var d := Directive(sp, ch);
    var fmt, i := before + d + after, |before|;
    AtMiddle(before, d, after);
    var w, p, l := WidthText(sp.width), PrecisionText(sp.prec), LengthText(sp.length, LENGTHS, ch);
    TextStarts(sp, ch);
    var s1 := PLAIN.(alt := sp.alt, ladjust := sp.ladjust, zeropad := sp.zeropad, sign := sp.sign);
    FlagsAreRead(fmt, i, sp, w + (p + l), args);
    var j := i + |d| - |w + (p + l)|;
    WidthIsRead(fmt, j, sp.width, p + l, s1, args);
    PrecisionIsRead(fmt, j + |w|, sp.prec, l, s1.(width := sp.width), args);
    AddingAll(sp.length);
    LengthIsRead(fmt, j + |w| + |p|, sp.length, LENGTHS, ch, s1.(width := sp.width, prec := sp.prec), args);
  }

  lemma StarStep(fmt: string, i: nat, sp: Spec, args: seq<Arg>)
    requires i < |fmt| && fmt[i] == '*'
    requires args != [] && args[0].Int? && -0x8000_0000 <= args[0].v < 0x8000_0000
    ensures var w := args[0].v;
      Scan(fmt, i, sp, args) == Scan(fmt, i + 1,
        sp.(width := if w < 0 then -w else w, ladjust := sp.ladjust || w < 0), args[1..])
  {
    hide Number;
  }

  lemma DotStarStep(fmt: string, i: nat, sp: Spec, args: seq<Arg>)
    requires i + 1 < |fmt| && fmt[i] == '.' && fmt[i + 1] == '*'
    requires args != [] && args[0].Int? && -0x8000_0000 <= args[0].v < 0x8000_0000
    ensures var p := args[0].v;
      Scan(fmt, i, sp, args) == Scan(fmt, i + 2, sp.(prec := if p < 0 then -1 else p), args[1..])
  {
    hide Number;
  }

  /** Width and precision may also be arguments: they are read as if their digits stood in
      the directive, a negative width as the flag for the left side and the width, a
      negative precision as none. */
  lemma StarsAreRead(before: string, sp: Spec, ch: char, after: string, w: int, p: int, args: seq<Arg>)
    requires Writable(sp) && Ends(ch) && -0x8000_0000 <= w < 0x8000_0000 && -0x8000_0000 <= p < 0x8000_0000
    ensures var d := FlagText(sp, "*.*" + LengthText(sp.length, LENGTHS, ch));
      var width := if w < 0 then -w else w;
      Scan(before + d + after, |before|, PLAIN, [Int(w), Int(p)] + args) ==
      Conversion(ch, |before| + |d|,
        sp.(width := width, ladjust := sp.ladjust || w < 0, prec := if p < 0 then -1 else p), args)
  {
    hide Scan; hide Digits; hide Ends; hide FlagText; hide At; hide LengthText;
    var l := LengthText(sp.length, LENGTHS, ch);
    var d := FlagText(sp, "*.*" + l);
    var fmt, i, all := before + d + after, |before|, [Int(w), Int(p)] + args;
    AtMiddle(before, d, after);
    FlagsAreRead(fmt, i, sp, "*.*" + l, all);
    var j := i + |d| - 3 - |l|;
    AtSplit(fmt, j, "*.*", l);
    var s1 := PLAIN.(alt := sp.alt, ladjust := sp.ladjust, zeropad := sp.zeropad, sign := sp.sign);
    TwoStars(fmt, j, s1, w, p, args);
    AddingAll(sp.length);
    LengthIsRead(fmt, j + 3, sp.length, LENGTHS, ch, s1.(width := if w < 0 then -w else w,
      ladjust := sp.ladjust || w < 0, prec := if p < 0 then -1 else p), args);
  }

  lemma TwoStars(fmt: string, j: nat, sp: Spec, w: int, p: int, args: seq<Arg>)
    requires At(fmt, j, "*.*") && -0x8000_0000 <= w < 0x8000_0000 && -0x8000_0000 <= p < 0x8000_0000
    ensures Scan(fmt, j, sp, [Int(w), Int(p)] + args) == Scan(fmt, j + 3, sp.(width := if w < 0 then -w else w,
      ladjust := sp.ladjust || w < 0, prec := if p < 0 then -1 else p), args)
  {
    hide Scan;
    var all := [Int(w), Int(p)] + args;
    StarChars(fmt, j);
    StarStep(fmt, j, sp, all);
    assert all[1..] == [Int(p)] + args && all[1..][1..] == args;
    DotStarStep(fmt, j + 1, sp.(width := if w < 0 then -w else w, ladjust := sp.ladjust || w < 0), all[1..]);
  }

  lemma StarChars(fmt: string, j: nat)
    requires At(fmt, j, "*.*")
    ensures j + 3 <= |fmt| && fmt[j] == '*' && fmt[j + 1] == '.' && fmt[j + 2] == '*'
  {
    var s := fmt[j..j + 3];
    assert s[0] == fmt[j] && s[1] == fmt[j + 1] && s[2] == fmt[j + 2];
  }

  lemma AtMiddle(a: string, b: string, c: string)
    ensures At(a + b + c, |a|, b)
  {}
}
