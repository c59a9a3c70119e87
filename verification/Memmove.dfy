/** The kernel's memmove on a byte-addressed memory: byte copies up to a word boundary,
    word copies, and the remaining bytes, upwards or downwards, for words of four and of
    eight bytes. */
module Memmove {
  /** sizeof(uintptr_t). */
  type Width = w: nat | w == 4 || w == 8 witness 4

  /** Both addresses have the same low bits. */
  predicate SameAlignment(from: nat, to: nat, w: Width) { from % w == to % w }

  predicate Aligned(a: nat, w: Width) { a % w == 0 }

  lemma Mod4(a: int, b: int, n: int)
    ensures (a + n) % 4 == (b + n) % 4 <==> a % 4 == b % 4
  {}

  lemma Mod8(a: int, b: int, n: int)
    ensures (a + n) % 8 == (b + n) % 8 <==> a % 8 == b % 8
  {}

  lemma Shift(a: nat, b: nat, n: nat, w: Width)
    ensures SameAlignment(a + n, b + n, w) <==> SameAlignment(a, b, w)
  {
    if w == 4 { Mod4(a, b, n); } else { Mod8(a, b, n); }
  }

  lemma AlignedTogether(from: nat, to: nat, k: nat, w: Width)
    requires SameAlignment(from, to, w)
    ensures Aligned(from + k, w) <==> Aligned(to + k, w)
  {
    Shift(from, to, k, w);
  }

  lemma AlignedDown(from: nat, to: nat, n: nat, k: nat, w: Width)
    requires SameAlignment(from + n, to + n, w) && k <= n
    ensures Aligned(from + k, w) <==> Aligned(to + k, w)
  {
    Shift(from, to, n, w);
    Shift(from, to, k, w);
  }

  lemma AlignedMeans(a: nat, w: Width)
    requires Aligned(a, w)
    ensures a % w == 0
  {}

  lemma AlignedStep(a: nat, w: Width)
    ensures Aligned(a + w, w) <==> Aligned(a, w)
  {
    if w == 4 {} else {}
  }

  /** The first `k` bytes have been copied from the memory `was`, and nothing else has
      changed. */
  ghost predicate CopiedUp(mem: seq<int>, was: seq<int>, to: nat, from: nat, k: nat) {
    && |mem| == |was| && to + k <= |mem| && from + k <= |mem|
    && (forall j :: to <= j < to + k ==> mem[j] == was[from + (j - to)])
    && (forall j :: 0 <= j < |mem| && !(to <= j < to + k) ==> mem[j] == was[j])
  }

  /** The last `k` of `n` bytes have been copied. */
  ghost predicate CopiedDown(mem: seq<int>, was: seq<int>, to: nat, from: nat, n: nat, k: nat) {
    && k <= n && to + n <= |was| && from + n <= |was|
    && CopiedUp(mem, was, to + n - k, from + n - k, k)
  }

  /** One machine word, at word boundaries only, read as a whole before it is written. */
  method CopyWord(mem: array<int>, to: nat, from: nat, w: Width)
    requires to % w == 0 && from % w == 0
    requires to + w <= mem.Length && from + w <= mem.Length
    modifies mem
    ensures CopiedUp(mem[..], old(mem[..]), to, from, w)
  {
    forall i | 0 <= i < w { mem[to + i] := mem[from + i]; }
    assert forall j :: to <= j < to + w ==> mem[j] == mem[to + (j - to)];
  }

  method CopyByte(mem: array<int>, to: nat, from: nat)
    requires to < mem.Length && from < mem.Length
    modifies mem
    ensures CopiedUp(mem[..], old(mem[..]), to, from, 1)
  {
    mem[to] := mem[from];
  }

  lemma StepUp(m0: seq<int>, m1: seq<int>, m2: seq<int>, to: nat, from: nat, k: nat, w: nat)
    requires CopiedUp(m1, m0, to, from, k) && CopiedUp(m2, m1, to + k, from + k, w) && to <= from
    ensures CopiedUp(m2, m0, to, from, k + w)
  {}

  lemma StepDown(m0: seq<int>, m1: seq<int>, m2: seq<int>, to: nat, from: nat, n: nat, k: nat, w: nat)
    requires CopiedDown(m1, m0, to, from, n, k) && k + w <= n && to > from
    requires CopiedUp(m2, m1, to + n - k - w, from + n - k - w, w)
    ensures CopiedDown(m2, m0, to, from, n, k + w)
  {}

  /** Copies bytes upwards, from the k-th on, until the end or a word boundary. */
  method BytesUp(mem: array<int>, to: nat, from: nat, k0: nat, n: nat, w: Width, toBoundary: bool, ghost was: seq<int>)
      returns (k: nat)
    requires k0 <= n && to + n <= mem.Length && from + n <= mem.Length && to <= from
      && CopiedUp(mem[..], was, to, from, k0)
    modifies mem
    ensures k <= n && CopiedUp(mem[..], was, to, from, k) && (k < n ==> toBoundary && Aligned(from + k, w))
  {
    hide CopiedUp; hide Aligned;
    k := k0;
    while k < n && !(toBoundary && Aligned(from + k, w))
      invariant k <= n && CopiedUp(mem[..], was, to, from, k)
      decreases n - k
    {
      ghost var m := mem[..];
      CopyByte(mem, to + k, from + k);
      StepUp(was, m, mem[..], to, from, k, 1);
      k := k + 1;
    }
  }

  method WordsUp(mem: array<int>, to: nat, from: nat, k0: nat, n: nat, w: Width, ghost was: seq<int>) returns (k: nat)
    requires k0 <= n && to + n <= mem.Length && from + n <= mem.Length && to <= from
      && CopiedUp(mem[..], was, to, from, k0)
    requires k0 < n ==> Aligned(from + k0, w) && Aligned(to + k0, w)
    modifies mem
    ensures k <= n && CopiedUp(mem[..], was, to, from, k)
  {
    hide CopiedUp; hide Aligned;
    k := k0;
    while n - k >= w
      invariant k <= n && CopiedUp(mem[..], was, to, from, k)
      invariant k < n ==> Aligned(from + k, w) && Aligned(to + k, w)
    {
      ghost var m := mem[..];
      AlignedMeans(from + k, w);
      AlignedMeans(to + k, w);
      CopyWord(mem, to + k, from + k, w);
      StepUp(was, m, mem[..], to, from, k, w);
      AlignedStep(from + k, w);
      AlignedStep(to + k, w);
      k := k + w;
    }
  }

  method MoveUp(mem: array<int>, to: nat, from: nat, n: nat, w: Width)
    requires to + n <= mem.Length && from + n <= mem.Length && to <= from
    modifies mem
    ensures CopiedUp(mem[..], old(mem[..]), to, from, n)
  {
    hide CopiedUp; hide Aligned; hide SameAlignment;
    var k := 0;
    ghost var was := mem[..];
    Nothing(was, to, from);
    if SameAlignment(from, to, w) {
      k := BytesUp(mem, to, from, 0, n, w, true, was);
      AlignedTogether(from, to, k, w);
      k := WordsUp(mem, to, from, k, n, w, was);
    }
    k := BytesUp(mem, to, from, k, n, w, false, was);
  }

  lemma Nothing(s: seq<int>, to: nat, from: nat)
    requires to <= |s| && from <= |s|
    ensures CopiedUp(s, s, to, from, 0)
  {}

  /** Copies bytes downwards while `n` are left, until the start or a word boundary. */
  method BytesDown(mem: array<int>, to: nat, from: nat, left: nat, n0: nat, w: Width, toBoundary: bool,
      ghost was: seq<int>) returns (n: nat)
    requires left <= n0 && to + n0 <= mem.Length && from + n0 <= mem.Length && to > from
    requires CopiedDown(mem[..], was, to, from, n0, n0 - left)
    modifies mem
    ensures n <= n0 && CopiedDown(mem[..], was, to, from, n0, n0 - n) && (n > 0 ==> toBoundary && Aligned(from + n, w))
  {
    hide CopiedUp; hide CopiedDown; hide Aligned;
    n := left;
    while n > 0 && !(toBoundary && Aligned(from + n, w))
      invariant n <= n0 && CopiedDown(mem[..], was, to, from, n0, n0 - n)
      decreases n
    {
      ghost var m := mem[..];
      CopyByte(mem, to + n - 1, from + n - 1);
      StepDown(was, m, mem[..], to, from, n0, n0 - n, 1);
      n := n - 1;
    }
  }

  method WordsDown(mem: array<int>, to: nat, from: nat, left: nat, n0: nat, w: Width, ghost was: seq<int>)
      returns (n: nat)
    requires left <= n0 && to + n0 <= mem.Length && from + n0 <= mem.Length && to > from
    requires CopiedDown(mem[..], was, to, from, n0, n0 - left)
    requires left > 0 ==> Aligned(from + left, w) && Aligned(to + left, w)
    modifies mem
    ensures n <= n0 && CopiedDown(mem[..], was, to, from, n0, n0 - n)
  {
    hide CopiedUp; hide CopiedDown; hide Aligned;
    n := left;
    while n >= w
      invariant n <= n0 && CopiedDown(mem[..], was, to, from, n0, n0 - n)
      invariant n > 0 ==> Aligned(from + n, w) && Aligned(to + n, w)
    {
      ghost var m := mem[..];
      AlignedStep(from + n - w, w);
      AlignedStep(to + n - w, w);
      AlignedMeans(from + n - w, w);
      AlignedMeans(to + n - w, w);
      CopyWord(mem, to + n - w, from + n - w, w);
      StepDown(was, m, mem[..], to, from, n0, n0 - n, w);
      n := n - w;
    }
  }

  method MoveDown(mem: array<int>, to: nat, from: nat, n0: nat, w: Width)
    requires to + n0 <= mem.Length && from + n0 <= mem.Length && to > from
    modifies mem
    ensures CopiedUp(mem[..], old(mem[..]), to, from, n0)
  {
    hide CopiedUp; hide CopiedDown; hide Aligned; hide SameAlignment;
    var n := n0;
    ghost var was := mem[..];
    NothingDown(was, to, from, n0);
    if SameAlignment(from + n0, to + n0, w) {
      n := BytesDown(mem, to, from, n0, n0, w, true, was);
      AlignedDown(from, to, n0, n, w);
      n := WordsDown(mem, to, from, n, n0, w, was);
    }
    n := BytesDown(mem, to, from, n, n0, w, false, was);
    AllDown(mem[..], was, to, from, n0);
  }

  lemma NothingDown(s: seq<int>, to: nat, from: nat, n: nat)
    requires to + n <= |s| && from + n <= |s|
    ensures CopiedDown(s, s, to, from, n, 0)
  {}

  lemma AllDown(mem: seq<int>, was: seq<int>, to: nat, from: nat, n: nat)
    requires CopiedDown(mem, was, to, from, n, n)
    ensures CopiedUp(mem, was, to, from, n)
  {}

  /** memmove: afterwards the destination holds what the source held before, however
      the two overlap and whatever their alignment, and all other bytes are as before. */
  method Move(mem: array<int>, to: nat, from: nat, n: nat, w: Width)
    requires to + n <= mem.Length && from + n <= mem.Length
    modifies mem
    ensures mem[to..to + n] == old(mem[from..from + n])
    ensures mem[..to] == old(mem[..to]) && mem[to + n..] == old(mem[to + n..])
  {
    if to <= from {
      MoveUp(mem, to, from, n, w);
    } else {
      MoveDown(mem, to, from, n, w);
    }
    Sliced(mem[..], old(mem[..]), to, from, n);
    assert mem[to..to + n] == mem[..][to..to + n];
    assert mem[to + n..] == mem[..][to + n..];
  }

  lemma Sliced(mem: seq<int>, was: seq<int>, to: nat, from: nat, n: nat)
    requires CopiedUp(mem, was, to, from, n)
    ensures mem[to..to + n] == was[from..from + n] && mem[..to] == was[..to] && mem[to + n..] == was[to + n..]
  {}
}
