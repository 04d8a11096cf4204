/** The D-Bus object path label escaping of src/basic/bus-label.c, on bytes. */
module BusLabel {
  import opened Bytes

  /** A C string without its terminator. */
  predicate NulFree(s: seq<Byte>) { 0 !in s }

  const UNDERSCORE: Byte := 0x5F

  predicate IsAlpha(b: Byte) { 0x41 <= b <= 0x5A || 0x61 <= b <= 0x7A }

  predicate IsDigit(b: Byte) { 0x30 <= b <= 0x39 }

  /** `hexchar()`: the low four bits as a lower-case digit. */
  function HexChar(x: int): Byte
  {
    var d := x % 16;
    if d < 10 then 0x30 + d else 0x61 + d - 10
  }

  /** `unhexchar()`; -1 stands for -EINVAL. */
  function UnhexChar(c: Byte): int
  {
    if IsDigit(c) then c - 0x30
    else if 0x61 <= c <= 0x66 then c - 0x61 + 10
    else if 0x41 <= c <= 0x46 then c - 0x41 + 10
    else -1
  }

  /** Letters stay, and so do digits that are not the first character. */
  predicate Plain(b: Byte, first: bool) { IsAlpha(b) || (!first && IsDigit(b)) }

  // ---------- what escaping means ----------

  function EscapeByte(b: Byte, first: bool): seq<Byte>
  {
    if Plain(b, first) then [b] else [UNDERSCORE, HexChar(b / 16), HexChar(b)]
  }

  function EscapeFrom(s: seq<Byte>, first: bool): seq<Byte>
  {
    if s == [] then [] else EscapeByte(s[0], first) + EscapeFrom(s[1..], false)
  }

  function Escaped(s: seq<Byte>): seq<Byte>
  {
    if s == [] then [UNDERSCORE] else EscapeFrom(s, true)
  }

  /** An underscore and two hexadecimal digits start here. */
  predicate IsCode(f: seq<Byte>)
  {
    |f| >= 3 && f[0] == UNDERSCORE && UnhexChar(f[1]) >= 0 && UnhexChar(f[2]) >= 0
  }

  function CodeByte(a: Byte, b: Byte): Byte
    requires UnhexChar(a) >= 0 && UnhexChar(b) >= 0
  {
    UnhexChar(a) * 16 + UnhexChar(b)
  }

  function UnescapeFrom(f: seq<Byte>): seq<Byte>
  {
    if f == [] then []
    else if IsCode(f) then [CodeByte(f[1], f[2])] + UnescapeFrom(f[3..])
    else [f[0]] + UnescapeFrom(f[1..])
  }

  function Unescaped(f: seq<Byte>): seq<Byte>
  {
    if f == [UNDERSCORE] then [] else UnescapeFrom(f)
  }

  // ---------- the C functions ----------

  /** Writes one byte of the label, or its code, at position `t` of the buffer. */
  method PutEscaped(buffer: array<Byte>, t: nat, b: Byte, first: bool) returns (t': nat)
    requires t + 3 <= buffer.Length
    modifies buffer
    ensures t < t' <= t + 3
    ensures buffer[..t'] == old(buffer[..t]) + EscapeByte(b, first)
  {
    hide HexChar;
    if !IsAlpha(b) && !(!first && IsDigit(b)) {
      buffer[t] := UNDERSCORE;
      buffer[t + 1] := HexChar(b / 16);
      buffer[t + 2] := HexChar(b);
      t' := t + 3;
    } else {
      buffer[t] := b;
      t' := t + 1;
    }
  }

  method BusLabelEscape(s: seq<Byte>) returns (r: seq<Byte>)
    requires NulFree(s)
    ensures r == Escaped(s)
  {
    hide EscapeFrom, EscapeByte, Escaped;
    EscapeEnds(s);
    if s == [] {
      return [UNDERSCORE];
    }
    var buffer := new Byte[|s| * 3 + 1];
    var f, t := 0, 0;
    assert s[0..] == s && buffer[..0] == [];
    while f < |s|
      invariant 0 <= f <= |s| && 0 <= t <= 3 * f
      invariant buffer[..t] + EscapeFrom(s[f..], f == 0) == Escaped(s)
    {
      EscapeNext(s, f, buffer[..t]);
      t := PutEscaped(buffer, t, s[f], f == 0);
      f := f + 1;
    }
    buffer[t] := 0;
    assert s[f..] == [];
    r := buffer[..t];
  }

  lemma EscapeEnds(s: seq<Byte>)
    ensures Escaped(s) == if s == [] then [UNDERSCORE] else EscapeFrom(s, true)
    ensures EscapeFrom([], false) == []
  {
    hide EscapeByte;
  }

  lemma EscapeNext(s: seq<Byte>, f: nat, done: seq<Byte>)
    requires f < |s|
    ensures done + EscapeFrom(s[f..], f == 0) == (done + EscapeByte(s[f], f == 0)) + EscapeFrom(s[f + 1..], false)
  {
    assert s[f..][1..] == s[f + 1..];
    assert s[f..][0] == s[f];
  }

  /** What the turn of the loop at `i` writes, and where the next one goes on. */
  method NextByte(f: seq<Byte>, i: nat) returns (b: Byte, next: nat)
    requires i < |f|
    ensures i < next <= |f| && UnescapeFrom(f[i..]) == [b] + UnescapeFrom(f[next..])
  {
    hide UnescapeFrom, UnhexChar;
    UnescapeNext(f, i);
    if f[i] == UNDERSCORE {
      if |f| - i < 3 || UnhexChar(f[i + 1]) < 0 || UnhexChar(f[i + 2]) < 0 {
        return UNDERSCORE, i + 1;
      }
      return CodeByte(f[i + 1], f[i + 2]), i + 3;
    }
    return f[i], i + 1;
  }

  method BusLabelUnescape(f: seq<Byte>) returns (r: seq<Byte>)
    ensures r == Unescaped(f)
  {
    hide UnescapeFrom, UnhexChar, Unescaped;
    UnescapeEnds(f);
    if |f| == 1 && f[0] == UNDERSCORE {
      return [];
    }
    var buffer := new Byte[|f| + 1];
    var i, t := 0, 0;
    assert f[0..] == f && buffer[..0] == [];
    while i < |f|
      invariant 0 <= t <= i <= |f|
      invariant buffer[..t] + UnescapeFrom(f[i..]) == Unescaped(f)
    {
      ghost var done := buffer[..t];
      var b, next := NextByte(f, i);
      buffer[t] := b;
      assert buffer[..t + 1] == done + [b];
      assert done + ([b] + UnescapeFrom(f[next..])) == (done + [b]) + UnescapeFrom(f[next..]);
      i, t := next, t + 1;
    }
    buffer[t] := 0;
    assert f[i..] == [];
    r := buffer[..t];
  }

  lemma UnescapeEnds(f: seq<Byte>)
    ensures Unescaped(f) == if f == [UNDERSCORE] then [] else UnescapeFrom(f)
    ensures UnescapeFrom([]) == []
  {
    hide UnhexChar;
  }

  lemma UnescapeNext(f: seq<Byte>, i: nat)
    requires i < |f|
    ensures UnescapeFrom(f[i..]) ==
      if |f| - i >= 3 && f[i] == UNDERSCORE && UnhexChar(f[i + 1]) >= 0 && UnhexChar(f[i + 2]) >= 0
      then [CodeByte(f[i + 1], f[i + 2])] + UnescapeFrom(f[i + 3..])
      else [f[i]] + UnescapeFrom(f[i + 1..])
  {
    hide UnhexChar;
    var g := f[i..];
    assert g[1..] == f[i + 1..];
    if |g| >= 3 { assert g[3..] == f[i + 3..] && g[1] == f[i + 1] && g[2] == f[i + 2]; }
  }

  // ---------- what escaping achieves ----------

  lemma HexRoundTrip(b: Byte)
    ensures UnhexChar(HexChar(b / 16)) == b / 16 && UnhexChar(HexChar(b)) == b % 16
  {
    assert b / 16 < 16;
    assert (b / 16) % 16 == b / 16;
  }

  lemma {:induction false} UnescapeInverts(s: seq<Byte>, first: bool)
    ensures UnescapeFrom(EscapeFrom(s, first)) == s
    decreases |s|
  {
    if s != [] {
      var e, rest := EscapeByte(s[0], first), EscapeFrom(s[1..], false);
      UnescapeInverts(s[1..], false);
      HexRoundTrip(s[0]);
      assert (e + rest)[|e|..] == rest;
      if !Plain(s[0], first) {
        assert s[0] / 16 * 16 + s[0] % 16 == s[0];
      }
    }
  }

  lemma EscapeStart(s: seq<Byte>, first: bool)
    ensures s != [] ==> EscapeFrom(s, first) != [UNDERSCORE] && EscapeFrom(s, first) != []
    ensures s != [] ==> EscapeFrom(s, first)[0] == EscapeByte(s[0], first)[0]
  {
    if s != [] && Plain(s[0], first) {
      assert EscapeFrom(s, first)[0] == s[0];
    }
  }

  /** Unescaping gives back any byte string. */
  lemma RoundTrip(s: seq<Byte>)
    ensures Unescaped(Escaped(s)) == s
  {
    UnescapeInverts(s, true);
    EscapeStart(s, true);
  }

  /** A character allowed in an element of a D-Bus object path. */
  predicate InObjectPath(b: Byte) { IsAlpha(b) || IsDigit(b) || b == UNDERSCORE }

  lemma {:induction false} EscapeCharacters(s: seq<Byte>, first: bool)
    ensures forall b | b in EscapeFrom(s, first) :: InObjectPath(b)
    decreases |s|
  {
    if s != [] {
      EscapeCharacters(s[1..], false);
      assert forall b | b in EscapeByte(s[0], first) :: InObjectPath(b);
    }
  }

  /**
   An escaped label is a legal object path element that does not start with a digit, and differs for different strings.
   */
  lemma EscapedIsLabel(s: seq<Byte>)
    ensures Escaped(s) != [] && !IsDigit(Escaped(s)[0])
    ensures forall b | b in Escaped(s) :: InObjectPath(b)
    ensures forall s' :: Escaped(s') == Escaped(s) ==> s' == s
  {
    EscapeCharacters(s, true);
    EscapeStart(s, true);
    RoundTrip(s);
    forall s' | Escaped(s') == Escaped(s) ensures s' == s { RoundTrip(s'); }
  }
}
