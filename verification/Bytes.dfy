/** Little-endian words in byte sequences and in memory. */
module Bytes {

  type Byte = x: int | 0 <= x < 256

  /** 256 to the power of `n`: the number of values of a word of `n` bytes. */
  function Modulus(n: nat): (m: nat)
    ensures m > 0
  {
    if n == 0 then 1 else 256 * Modulus(n - 1)
  }

  function LeValue(bs: seq<Byte>): (v: nat)
  {
    if bs == [] then 0 else bs[0] + 256 * LeValue(bs[1..])
  }

  function LeBytes(v: nat, n: nat): (bs: seq<Byte>)
    ensures |bs| == n
  {
    if n == 0 then [] else [v % 256] + LeBytes(v / 256, n - 1)
  }

  lemma {:induction false} ValueFits(bs: seq<Byte>)
    ensures LeValue(bs) < Modulus(|bs|)
  {
    if bs != [] {
      ValueFits(bs[1..]);
      assert LeValue(bs[1..]) + 1 <= Modulus(|bs| - 1);
    }
  }

  lemma {:induction false} ValueOfJoin(a: seq<Byte>, b: seq<Byte>)
    ensures LeValue(a + b) == LeValue(a) + Modulus(|a|) * LeValue(b)
  {
    if a == [] {
      assert a + b == b;
    } else {
      ValueOfJoin(a[1..], b);
      assert (a + b)[1..] == a[1..] + b && |a[1..]| == |a| - 1;
    }
  }

  lemma {:induction false} ValueOfBytes(v: nat, n: nat)
    requires v < Modulus(n)
    ensures LeValue(LeBytes(v, n)) == v
  {
    if n > 0 {
      assert v / 256 < Modulus(n - 1);
      ValueOfBytes(v / 256, n - 1);
      var bs := LeBytes(v, n);
      assert bs[1..] == LeBytes(v / 256, n - 1);
    }
  }

  lemma {:induction false} BytesOfValue(bs: seq<Byte>)
    ensures LeBytes(LeValue(bs), |bs|) == bs
  {
    if bs != [] {
      BytesOfValue(bs[1..]);
      LowByte(bs[0], LeValue(bs[1..]));
      assert bs == [bs[0]] + bs[1..];
    }
  }

  lemma LowByte(b: Byte, rest: nat)
    ensures (b + 256 * rest) % 256 == b && (b + 256 * rest) / 256 == rest
  {
  }

  function Zeros(n: nat): (z: seq<Byte>)
    ensures |z| == n && forall i | 0 <= i < n :: z[i] == 0
  {
    seq(n, _ => 0)
  }

  // ---------- memory ----------

  type Memory = map<int, Byte>

  /** `data` at address `a`. */
  function Chunk(a: int, data: seq<Byte>): (m: Memory)
    ensures forall x :: x in m <==> a <= x < a + |data|
    ensures forall x | a <= x < a + |data| :: m[x] == data[x - a]
  {
    map x | a <= x < a + |data| :: ByteFor(a, data, x)
  }

  function ByteFor(a: int, data: seq<Byte>, x: int): Byte
    requires a <= x < a + |data|
  {
    data[x - a]
  }

  predicate Mapped(m: Memory, a: int, n: nat)
  {
    forall x | a <= x < a + n :: x in m
  }

  function ReadBytes(m: Memory, a: int, n: nat): (bs: seq<Byte>)
    requires Mapped(m, a, n)
    ensures |bs| == n && forall i | 0 <= i < n :: bs[i] == m[a + i]
  {
    seq(n, i requires 0 <= i < n => m[a + i])
  }

  function Word(m: Memory, a: int, n: nat): nat
    requires Mapped(m, a, n)
  {
    LeValue(ReadBytes(m, a, n))
  }

  function WriteBytes(m: Memory, a: int, bs: seq<Byte>): Memory
  {
    m + Chunk(a, bs)
  }

  /** A relocation as a loader performs it: one word of memory is replaced or shifted, modulo the word size. */
  datatype Fix =
    | SetTo(at: int, value: int)
    | ShiftBy(at: int, delta: int)

  function NewWord(f: Fix, old': nat, n: nat): nat
  {
    (if f.SetTo? then f.value else old' + f.delta) % Modulus(n)
  }

  function ApplyFix(m: Memory, f: Fix, n: nat): Memory
  {
    if Mapped(m, f.at, n) then WriteBytes(m, f.at, LeBytes(NewWord(f, Word(m, f.at, n), n), n)) else m
  }

  function ApplyAll(m: Memory, fs: seq<Fix>, n: nat): Memory
  {
    if fs == [] then m else ApplyFix(ApplyAll(m, fs[..|fs| - 1], n), fs[|fs| - 1], n)
  }

  /** The words of two fixes do not overlap. */
  predicate Clear(f: Fix, g: Fix, n: nat)
  {
    f.at + n <= g.at || g.at + n <= f.at
  }

  predicate Apart(fs: seq<Fix>, n: nat)
  {
    forall i, j | 0 <= i < j < |fs| :: Clear(fs[i], fs[j], n)
  }

  /** Two fixes are for the same word, or for words that do not overlap. */
  predicate Tidy(fs: seq<Fix>, n: nat)
  {
    forall i, j | 0 <= i < j < |fs| :: fs[i].at == fs[j].at || Clear(fs[i], fs[j], n)
  }

  /** The word at `a`, after those of the fixes that are for it. */
  function WordAfter(fs: seq<Fix>, a: int, w: nat, n: nat): nat
  {
    if fs == [] then w
    else
      var k := |fs| - 1;
      var before := WordAfter(fs[..k], a, w, n);
      if fs[k].at == a then NewWord(fs[k], before, n) else before
  }

  lemma {:induction false} WordUntouched(fs: seq<Fix>, a: int, w: nat, n: nat)
    requires forall i | 0 <= i < |fs| :: fs[i].at != a
    ensures WordAfter(fs, a, w, n) == w
  {
    if fs != [] { WordUntouched(fs[..|fs| - 1], a, w, n); }
  }

  predicate AllMapped(m: Memory, fs: seq<Fix>, n: nat)
  {
    forall i | 0 <= i < |fs| :: Mapped(m, fs[i].at, n)
  }

  lemma FixEffect(m: Memory, f: Fix, n: nat)
    requires Mapped(m, f.at, n)
    ensures var m' := ApplyFix(m, f, n);
      && m'.Keys == m.Keys
      && Mapped(m', f.at, n) && Word(m', f.at, n) == NewWord(f, Word(m, f.at, n), n)
      && forall x | x in m && !(f.at <= x < f.at + n) :: m'[x] == m[x]
  {
    var w := NewWord(f, Word(m, f.at, n), n);
    var bs := LeBytes(w, n);
    var m' := ApplyFix(m, f, n);
    assert ReadBytes(m', f.at, n) == bs;
    ValueOfBytes(w, n);
  }

  lemma WordUnchanged(m: Memory, m': Memory, a: int, n: nat)
    requires Mapped(m, a, n) && Mapped(m', a, n)
    requires forall x | a <= x < a + n :: m'[x] == m[x]
    ensures Word(m', a, n) == Word(m, a, n)
  {
    assert ReadBytes(m', a, n) == ReadBytes(m, a, n);
  }

  predicate Touched(fs: seq<Fix>, n: nat, x: int)
  {
    exists i | 0 <= i < |fs| :: fs[i].at <= x < fs[i].at + n
  }

  /** Every word has gone through its fixes in order, and nothing else has changed. */
  ghost predicate Effect(m: Memory, m': Memory, fs: seq<Fix>, n: nat)
    requires AllMapped(m, fs, n)
  {
    && m'.Keys == m.Keys
    && AllMapped(m', fs, n)
    && (forall i | 0 <= i < |fs| :: Word(m', fs[i].at, n) == WordAfter(fs, fs[i].at, Word(m, fs[i].at, n), n))
    && forall x | x in m && !Touched(fs, n, x) :: m'[x] == m[x]
  }

  lemma EffectNext(m: Memory, m1: Memory, fs: seq<Fix>, n: nat)
    requires fs != [] && Tidy(fs, n) && AllMapped(m, fs, n) && n > 0
    requires Effect(m, m1, fs[..|fs| - 1], n)
    ensures Effect(m, ApplyFix(m1, fs[|fs| - 1], n), fs, n)
  {
    var k := |fs| - 1;
    LastWord(m, m1, fs, n);
    FixEffect(m1, fs[k], n);
    hide ApplyFix, Word, NewWord, Touched, WordAfter;
    var m2 := ApplyFix(m1, fs[k], n);
    SameKeysMapped(m, m2, fs, n);
    forall i | 0 <= i < |fs| ensures Word(m2, fs[i].at, n) == WordAfter(fs, fs[i].at, Word(m, fs[i].at, n), n) {
      WordAfterLast(fs, fs[i].at, Word(m, fs[i].at, n), n);
      if fs[i].at != fs[k].at { EarlierWordKept(m, m1, m2, fs, n, i); }
    }
    forall x | x in m && !Touched(fs, n, x) ensures m2[x] == m[x] {
      TouchedByPart(fs, n, x);
    }
  }

  lemma WordAfterLast(fs: seq<Fix>, a: int, w: nat, n: nat)
    requires fs != []
    ensures var k := |fs| - 1;
      WordAfter(fs, a, w, n) ==
        if fs[k].at == a then NewWord(fs[k], WordAfter(fs[..k], a, w, n), n) else WordAfter(fs[..k], a, w, n)
  {
    hide NewWord;
  }

  lemma SameKeysMapped(m: Memory, m': Memory, fs: seq<Fix>, n: nat)
    requires AllMapped(m, fs, n) && m'.Keys == m.Keys
    ensures AllMapped(m', fs, n)
  {
    forall i | 0 <= i < |fs| ensures Mapped(m', fs[i].at, n) {
      assert Mapped(m, fs[i].at, n);
      assert forall x :: x in m' <==> x in m.Keys;
    }
  }

  lemma EarlierWordKept(m: Memory, m1: Memory, m2: Memory, fs: seq<Fix>, n: nat, i: nat)
    requires fs != [] && Tidy(fs, n) && AllMapped(m, fs, n) && i < |fs| - 1 && fs[i].at != fs[|fs| - 1].at
    requires Effect(m, m1, fs[..|fs| - 1], n) && AllMapped(m2, fs, n) && m2.Keys == m1.Keys
    requires forall x | x in m1 && !(fs[|fs| - 1].at <= x < fs[|fs| - 1].at + n) :: m2[x] == m1[x]
    ensures Word(m2, fs[i].at, n) == WordAfter(fs[..|fs| - 1], fs[i].at, Word(m, fs[i].at, n), n)
  {
    var front := fs[..|fs| - 1];
    assert front[i] == fs[i];
    assert Mapped(m1, front[i].at, n);
    assert Clear(fs[i], fs[|fs| - 1], n);
    hide Word, WordAfter;
    WordUnchanged(m1, m2, fs[i].at, n);
  }

  lemma TouchedByPart(fs: seq<Fix>, n: nat, x: int)
    requires fs != []
    ensures Touched(fs, n, x) <==>
      Touched(fs[..|fs| - 1], n, x) || fs[|fs| - 1].at <= x < fs[|fs| - 1].at + n
  {
    var front := fs[..|fs| - 1];
    if Touched(front, n, x) {
      var i :| 0 <= i < |front| && front[i].at <= x < front[i].at + n;
      assert fs[i].at <= x < fs[i].at + n;
    }
    if Touched(fs, n, x) {
      var i :| 0 <= i < |fs| && fs[i].at <= x < fs[i].at + n;
      assert i < |front| ==> front[i].at <= x < front[i].at + n;
    }
  }

  /** What the last fix finds is what the earlier ones for its word have left. */
  lemma LastWord(m: Memory, m1: Memory, fs: seq<Fix>, n: nat)
    requires fs != [] && Tidy(fs, n) && AllMapped(m, fs, n) && n > 0
    requires Effect(m, m1, fs[..|fs| - 1], n)
    ensures var k := |fs| - 1;
      && Mapped(m, fs[k].at, n) && Mapped(m1, fs[k].at, n)
      && Word(m1, fs[k].at, n) == WordAfter(fs[..k], fs[k].at, Word(m, fs[k].at, n), n)
  {
    var k := |fs| - 1;
    var front := fs[..k];
    assert Mapped(m, fs[k].at, n);
    hide Word, NewWord;
    if i :| 0 <= i < k && fs[i].at == fs[k].at {
      assert front[i] == fs[i];
      assert Mapped(m1, front[i].at, n);
    } else {
      assert forall i | 0 <= i < k :: Clear(fs[i], fs[k], n);
      assert forall x | fs[k].at <= x < fs[k].at + n :: x in m && !Touched(front, n, x);
      WordUnchanged(m, m1, fs[k].at, n);
      WordUntouched(front, fs[k].at, Word(m, fs[k].at, n), n);
    }
  }

  /** Fixes that are for the same word or for words apart act on each word in order, and nothing else changes. */
  lemma {:induction false} AllEffect(m: Memory, fs: seq<Fix>, n: nat)
    requires Tidy(fs, n) && AllMapped(m, fs, n) && n > 0
    ensures Effect(m, ApplyAll(m, fs, n), fs, n)
  {
    hide Effect, ApplyFix;
    if fs == [] {
      NoEffect(m, n);
    } else {
      AllEffect(m, fs[..|fs| - 1], n);
      EffectNext(m, ApplyAll(m, fs[..|fs| - 1], n), fs, n);
    }
  }

  lemma NoEffect(m: Memory, n: nat)
    ensures Effect(m, m, [], n)
  {
  }

  /** Two memories agree on a word exactly if they agree on its bytes. */
  lemma WordDetermines(m: Memory, a: int, m': Memory, a': int, n: nat, x: nat)
    requires Mapped(m, a, n) && Mapped(m', a', n) && Word(m, a, n) == Word(m', a', n) && x < n
    ensures m[a + x] == m'[a' + x]
  {
    BytesOfValue(ReadBytes(m, a, n));
    BytesOfValue(ReadBytes(m', a', n));
    assert m[a + x] == ReadBytes(m, a, n)[x] && m'[a' + x] == ReadBytes(m', a', n)[x];
  }
}
