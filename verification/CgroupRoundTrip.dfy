/** The decoders of cgroup paths invert the encoders. */
module CgroupRoundTrip {
  import opened Wrappers
  import opened PathUtil
  import opened CgroupNames

  /** One component of a slice's path. */
  ghost predicate SlicePart(c: string)
  {
    ValidSliceName(c) && '/' !in c && |c| >= 7
  }

  // ---------- the components of a slice's path ----------

  lemma LastDotOf(n: string)
    requires EndsWith(n, SLICE)
    ensures LastDot(n) == |n| - 6
  {
    var k := |n| - 6;
    var tail := n[k..];
    assert tail == ".slice";
    assert forall i | 0 <= i < 6 :: n[k + i] == tail[i];
    assert n[..k + 6] == n;
    LastDotBack(n, k, 5);
  }

  lemma {:induction false} LastDotBack(n: string, k: nat, m: nat)
    requires k + m + 1 <= |n| && n[k] == '.' && forall i | k < i <= k + m :: n[i] != '.'
    ensures LastDot(n[..k + m + 1]) == k
    decreases m
  {
    var s := n[..k + m + 1];
    if m > 0 {
      assert s[..|s| - 1] == n[..k + m];
      LastDotBack(n, k, m - 1);
    }
  }

  lemma EscapedSlice(n: string)
    requires UnitNameIsValid(n, PLAIN) && EndsWith(n, SLICE) && Escape(n).Some?
    ensures SlicePart(Escape(n).value) && Unescape(Escape(n).value) == n
  {
    LastDotOf(n);
    EscapeRoundTrip(n);
    assert |n| >= 7;
    hide UnitNameIsValid, Escape;
    EndsWithPrefix(n);
  }

  lemma EndsWithPrefix(n: string)
    requires EndsWith(n, SLICE)
    ensures EndsWith("_" + n, SLICE)
  {
    assert ("_" + n)[|"_" + n| - 6..] == n[|n| - 6..];
  }

  lemma {:induction false} AncestorsAreSlices(p: string, dash: nat)
    requires dash <= |p| && Ancestors(p, dash).Some?
    ensures forall c | c in Ancestors(p, dash).value :: SlicePart(c)
    decreases |p| - dash
  {
    hide SlicePart, Escape, UnitNameIsValid;
    if dash < |p| {
      var n := p[..dash] + SLICE;
      assert n[|n| - 6..] == SLICE;
      EscapedSlice(n);
      AncestorsAreSlices(p, IndexOf(p, '-', dash + 1));
    }
  }

  /** An accepted slice other than the root is the last of its components, after its ancestors. */
  lemma AcceptedForm(unit: string) returns (p: string, dash: nat, above: seq<string>)
    requires SliceComponents(unit).Some? && unit != ROOT_SLICE
    ensures UnitNameIsValid(unit, PLAIN) && EndsWith(unit, SLICE) && Escape(unit).Some?
    ensures dash <= |p| && Ancestors(p, dash) == Some(above)
    ensures SliceComponents(unit).value == above + [Escape(unit).value]
  {
    hide Escape, Ancestors, IndexOf;
    p := unit[..LastDot(unit)];
    dash := IndexOf(p, '-', 0);
    above := Ancestors(p, dash).value;
  }

  lemma RootComponents()
    ensures SliceComponents(ROOT_SLICE) == Some([])
  {
  }

  lemma SliceComponentsAreSlices(unit: string)
    requires SliceComponents(unit).Some?
    ensures var names := SliceComponents(unit).value;
      && (forall c | c in names :: SlicePart(c))
      && (names == [] <==> unit == ROOT_SLICE)
      && (names != [] ==> Unescape(names[|names| - 1]) == unit && UnitNameIsValid(unit, PLAIN))
  {
    hide SlicePart, Escape, UnitNameIsValid, Ancestors, SliceComponents, EndsWith, Unescape;
    if unit == ROOT_SLICE {
      RootComponents();
    } else {
      var p, dash, above := AcceptedForm(unit);
      AncestorsAreSlices(p, dash);
      EscapedSlice(unit);
      assert forall c | c in SliceComponents(unit).value :: c in above || c == Escape(unit).value;
    }
  }

  lemma PathOfComponents(unit: string)
    ensures SliceToPath(unit).Some? <==> SliceComponents(unit).Some?
    ensures SliceToPath(unit).Some? ==> SliceToPath(unit).value == Joined(SliceComponents(unit).value, "")
  {
    hide SliceComponents, Joined;
  }

  // ---------- the path is the hierarchy ----------

  lemma {:induction false} IndexOfCut(p: string, d: nat, from: nat)
    requires from <= d < |p| && p[d] == '-'
    ensures IndexOf(p, '-', from) <= d
    ensures IndexOf(p[..d], '-', from) == IndexOf(p, '-', from)
    decreases d - from
  {
    if from < d && p[from] != '-' { IndexOfCut(p, d, from + 1); }
  }

  /** Cutting the prefix at a dash cuts the list of ancestors there. */
  lemma {:induction false} AncestorsCut(p: string, dash: nat, d: nat)
    requires dash <= d < |p| && p[d] == '-' && Ancestors(p, dash).Some?
    ensures Ancestors(p, d).Some? && Ancestors(p[..d], dash).Some?
    ensures Ancestors(p, dash).value == Ancestors(p[..d], dash).value + Ancestors(p, d).value
    decreases d - dash
  {
    hide UnitNameIsValid, Escape;
    if dash < d {
      IndexOfCut(p, d, dash + 1);
      assert p[..d][..dash] == p[..dash];
      AncestorsCut(p, IndexOf(p, '-', dash + 1), d);
    } else {
      assert Ancestors(p[..d], dash) == Some([]);
    }
  }

  /** The dash at which the `k`-th ancestor ends. */
  lemma {:induction false} NthDash(p: string, dash: nat, k: nat) returns (d: nat)
    requires dash <= |p| && (dash < |p| ==> p[dash] == '-')
    requires Ancestors(p, dash).Some? && k < |Ancestors(p, dash).value|
    ensures dash <= d < |p| && p[d] == '-'
    ensures Ancestors(p[..d], dash).Some? && |Ancestors(p[..d], dash).value| == k
    decreases |p| - dash
  {
    hide UnitNameIsValid, Escape;
    if k == 0 {
      d := dash;
    } else {
      d := NthDash(p, IndexOf(p, '-', dash + 1), k - 1);
      AncestorsCut(p, dash, d);
      AncestorsCut(p, IndexOf(p, '-', dash + 1), d);
      assert |Ancestors(p, dash).value| == 1 + |Ancestors(p, IndexOf(p, '-', dash + 1)).value|;
    }
  }

  /** Each component of a slice's path is itself an accepted slice, whose path is the path up to there. */
  lemma SlicePathIsHierarchy(unit: string, k: nat)
    requires SliceComponents(unit).Some? && k < |SliceComponents(unit).value|
    ensures var names := SliceComponents(unit).value;
            SliceComponents(Unescape(names[k])) == Some(names[..k + 1])
  {
    hide UnitNameIsValid, Escape, SliceComponents, Ancestors, Unescape, LastDot, IndexOf, EndsWith;
    RootComponents();
    var names := SliceComponents(unit).value;
    var p, dash := AcceptedSplit(unit);
    var above := Ancestors(p, dash).value;
    if k == |above| {
      assert names[..k + 1] == names;
      EscapedSlice(unit);
    } else {
      AncestorPath(p, dash, k);
      assert names[..k + 1] == above[..k + 1];
    }
  }

  lemma AncestorPath(p: string, dash: nat, k: nat)
    requires 0 < dash < |p| && dash == IndexOf(p, '-', 0) && Ancestors(p, dash).Some?
    requires k < |Ancestors(p, dash).value|
    ensures var above := Ancestors(p, dash).value;
            SliceComponents(Unescape(above[k])) == Some(above[..k + 1])
  {
    hide UnitNameIsValid, Escape, SliceComponents, Ancestors, Unescape, LastDot, SlicePart;
    var above := Ancestors(p, dash).value;
    var d := NthDash(p, dash, k);
    AncestorsCut(p, dash, d);
    AncestorsUnfold(p, d);
    var n := p[..d] + SLICE;
    assert n[|n| - 6..] == SLICE;
    EscapedSlice(n);
    assert above[k] == Escape(n).value;
    assert above[..k + 1] == Ancestors(p[..d], dash).value + [Escape(n).value];
    CutIsAccepted(p, dash, d);
  }

  lemma AcceptedSplit(unit: string) returns (p: string, dash: nat)
    requires SliceComponents(unit).Some? && unit != ROOT_SLICE
    ensures 0 < dash <= |p| && dash == IndexOf(p, '-', 0) && (dash == |p| ==> Ancestors(p, dash) == Some([]))
    ensures UnitNameIsValid(unit, PLAIN) && EndsWith(unit, SLICE) && Escape(unit).Some?
    ensures Ancestors(p, dash).Some? && SliceComponents(unit).value == Ancestors(p, dash).value + [Escape(unit).value]
  {
    hide Escape, Ancestors;
    p := unit[..LastDot(unit)];
    dash := IndexOf(p, '-', 0);
    AncestorsUnfold(p, dash);
  }

  lemma CutIsAccepted(p: string, dash: nat, d: nat)
    requires 0 < dash <= d < |p| && dash == IndexOf(p, '-', 0) && p[d] == '-'
    requires Ancestors(p[..d], dash).Some?
    requires var n := p[..d] + SLICE; UnitNameIsValid(n, PLAIN) && Escape(n).Some?
    ensures var n := p[..d] + SLICE;
            SliceComponents(n) == Some(Ancestors(p[..d], dash).value + [Escape(n).value])
  {
    var n := p[..d] + SLICE;
    assert n[|n| - 6..] == SLICE;
    LastDotOf(n);
    assert n[..d] == p[..d];
    IndexOfCut(p, d, 0);
    hide UnitNameIsValid, Escape, Ancestors, LastDot;
    assert p[0] != '-';
    assert n[0] == p[0];
  }

  // ---------- skipping slices ----------

  lemma HeadOf(c: string, rest: string)
    requires c != "" && '/' !in c && (rest == "" || rest[0] == '/')
    ensures StripSlashes(c + rest) == c + rest && SlashIndex(c + rest) == |c|
    ensures Head(c + rest) == c && (c + rest)[|c|..] == rest
  {
    SlashIndexOf(c, rest);
  }

  lemma SkipOne(c: string, t: string)
    requires SlicePart(c)
    ensures SkipSlices(c + "/" + t) == SkipSlices(t)
    ensures forall e :: GetSliceFrom(c + "/" + t, e) == GetSliceFrom(t, Some(c + "/" + t))
  {
    assert c + "/" + t == c + ("/" + t);
    HeadOf(c, "/" + t);
    hide ValidSliceName, DecodeUnit, Head;
    SlashDropped(t);
  }

  lemma SlashDropped(t: string)
    ensures StripSlashes("/" + t) == StripSlashes(t)
    ensures SkipSlices("/" + t) == SkipSlices(t)
    ensures forall e :: GetSliceFrom("/" + t, e) == GetSliceFrom(t, e)
  {
    assert ("/" + t)[1..] == t;
    hide ValidSliceName, DecodeUnit;
  }

  lemma {:induction false} SkipMany(names: seq<string>, t: string, e: Option<string>)
    requires forall c | c in names :: SlicePart(c)
    ensures SkipSlices(AllJoined(names) + t) == SkipSlices(t)
    ensures GetSliceFrom(AllJoined(names) + t, e) ==
      GetSliceFrom(t, if names == [] then e else Some(names[|names| - 1] + "/" + t))
    decreases |names|
  {
    hide SlicePart, SkipSlices, GetSliceFrom;
    if names == [] {
      assert AllJoined(names) + t == t;
    } else {
      var k := |names| - 1;
      var y := names[k];
      SkipMany(names[..k], y + "/" + t, e);
      SkipOne(y, t);
      assert AllJoined(names) + t == AllJoined(names[..k]) + (y + "/" + t);
    }
  }

  /** A slice's path in front of anything: the decoders step over it and remember the slice. */
  lemma SkipSlicePath(unit: string, t: string)
    requires SliceComponents(unit).Some?
    ensures SliceToPath(unit).Some?
    ensures SkipSlices(SliceToPath(unit).value + "/" + t) == SkipSlices(t)
    ensures var names := SliceComponents(unit).value;
      PathGetSlice(SliceToPath(unit).value + "/" + t) ==
        GetSliceFrom(t, if names == [] then None else Some(names[|names| - 1] + "/" + t))
  {
    hide SlicePart, SkipSlices, GetSliceFrom, SliceComponents, UnitNameIsValid, SliceToPath, Joined, AllJoined,
      Unescape;
    SliceComponentsAreSlices(unit);
    PathOfComponents(unit);
    var names := SliceComponents(unit).value;
    if names == [] {
      JoinedNothing();
      assert "" + "/" + t == "/" + t;
      SlashDropped(t);
    } else {
      SliceString(names);
      SkipMany(names, t, None);
    }
  }

  lemma JoinedNothing()
    ensures Joined([], "") == ""
  {
  }

  lemma SliceString(names: seq<string>)
    requires names != [] && forall c | c in names :: SlicePart(c)
    ensures Joined(names, "") + "/" == AllJoined(names)
  {
    var k := |names| - 1;
    assert names == names[..k] + [names[k]] && names[k] in names;
    AllJoinedThen(names[..k], names[k]);
  }

  /** The first component that is not a slice ends the search. */
  lemma StopAt(c: string, rest: string)
    requires c != "" && '/' !in c && (rest == "" || rest[0] == '/') && !ValidSliceName(c)
    ensures SkipSlices(c + rest) == c + rest
    ensures forall e :: GetSliceFrom(c + rest, e) == if e.None? then Some(ROOT_SLICE) else DecodeUnit(e.value)
  {
    HeadOf(c, rest);
    hide ValidSliceName, DecodeUnit;
  }

  /** The slice decoder recovers the slice from its path, in front of a component that is not a slice. */
  lemma SliceRecovered(unit: string, c: string, rest: string)
    requires SliceToPath(unit).Some?
    requires c != "" && '/' !in c && (rest == "" || rest[0] == '/') && !ValidSliceName(c)
    ensures PathGetSlice(SliceToPath(unit).value + "/" + (c + rest)) == Some(unit)
    ensures SkipSlices(SliceToPath(unit).value + "/" + (c + rest)) == c + rest
  {
    PathOfComponents(unit);
    hide SliceToPath, SkipSlices, Joined, PathGetSlice, GetSliceFrom, SliceComponents, UnitNameIsValid, ValidSliceName,
      Unescape, SlicePart, DecodeUnit;
    SliceComponentsAreSlices(unit);
    SkipSlicePath(unit, c + rest);
    StopAt(c, rest);
    var names := SliceComponents(unit).value;
    if names != [] {
      LastDecodes(unit, names[|names| - 1], c + rest);
    }
  }

  lemma LastSlice(c: string, e: Option<string>)
    requires SlicePart(c)
    ensures GetSliceFrom(c, e) == DecodeUnit(c) && SkipSlices(c) == ""
  {
    assert c + "" == c;
    HeadOf(c, "");
    SliceNotEmpty("");
    hide DecodeUnit, ValidSliceName;
    NothingLeft();
  }

  lemma NothingLeft()
    ensures SkipSlices("") == "" && StripSlashes("") == "" && Head("") == ""
    ensures forall e: Option<string> :: e.Some? ==> GetSliceFrom("", e) == DecodeUnit(e.value)
  {
    SliceNotEmpty("");
    hide DecodeUnit;
  }

  /** With nothing behind it, too, the path of a slice gives back the slice. */
  lemma BareSliceRecovered(unit: string)
    requires SliceToPath(unit).Some?
    ensures PathGetSlice(SliceToPath(unit).value) == Some(unit)
    ensures SkipSlices(SliceToPath(unit).value) == ""
  {
    PathOfComponents(unit);
    hide SliceToPath, SkipSlices, Joined, GetSliceFrom, SliceComponents, UnitNameIsValid, ValidSliceName, Unescape,
      SlicePart, DecodeUnit, AllJoined;
    SliceComponentsAreSlices(unit);
    var names := SliceComponents(unit).value;
    if names == [] {
      JoinedNothing();
      RootOfNothing();
    } else {
      var k := |names| - 1;
      SliceHasName(names[k]);
      AllJoinedThen(names[..k], names[k]);
      assert names == names[..k] + [names[k]];
      SkipMany(names[..k], names[k], None);
      LastSlice(names[k], if k == 0 then None else Some(names[k - 1] + "/" + names[k]));
      LastDecodesBare(unit, names[k]);
    }
  }

  lemma RootOfNothing()
    ensures PathGetSlice("") == Some(ROOT_SLICE) && SkipSlices("") == ""
  {
    SliceNotEmpty("");
    hide DecodeUnit;
  }

  lemma SliceHasName(c: string)
    requires SlicePart(c)
    ensures c != ""
  {
  }

  lemma LastDecodesBare(unit: string, last: string)
    requires SlicePart(last) && Unescape(last) == unit && UnitNameIsValid(unit, PLAIN)
    ensures DecodeUnit(last) == Some(unit)
  {
    assert last + "" == last;
    HeadOf(last, "");
    PlainIsEither(unit);
    SliceNotEmpty(last);
    hide UnitNameIsValid, Unescape;
  }

  lemma LastDecodes(unit: string, last: string, t: string)
    requires SlicePart(last) && Unescape(last) == unit && UnitNameIsValid(unit, PLAIN)
    ensures DecodeUnit(last + "/" + t) == Some(unit)
  {
    assert last + "/" + t == last + ("/" + t);
    HeadOf(last, "/" + t);
    PlainIsEither(unit);
    hide UnitNameIsValid, Unescape, ValidSliceName;
  }

  lemma PlainIsEither(n: string)
    requires UnitNameIsValid(n, PLAIN)
    ensures UnitNameIsValid(n, PLAIN_OR_INSTANCE)
  {
  }

  // ---------- units ----------

  /** A unit that is not a slice, as a component. */
  lemma UnitPart(unit: string)
    requires UnitNameIsValid(unit, PLAIN_OR_INSTANCE) && !EndsWith(unit, SLICE) && Escape(unit).Some?
    ensures var c := Escape(unit).value;
      && c != "" && '/' !in c && !ValidSliceName(c)
      && forall rest | rest == "" || rest[0] == '/' :: DecodeUnit(c + rest) == Some(unit)
  {
    EscapeRoundTrip(unit);
    var c := Escape(unit).value;
    UnitIsLong(unit);
    hide UnitNameIsValid, Escape;
    if c != unit {
      assert |c| > 6;
      assert c[|c| - 6..] == unit[|unit| - 6..];
    }
    forall rest | rest == "" || rest[0] == '/' ensures DecodeUnit(c + rest) == Some(unit) {
      HeadOf(c, rest);
    }
  }

  lemma UnitIsLong(n: string)
    requires UnitNameIsValid(n, PLAIN_OR_INSTANCE)
    ensures |n| >= 6
  {
    var e := LastDot(n);
    var t := n[e + 1..];
    assert IsUnitType(t) ==> |t| >= 4;
  }

  /** Slice path, then unit: both come back. */
  lemma SystemUnitRoundTrip(slice: string, unit: string)
    requires SliceToPath(slice).Some?
    requires UnitNameIsValid(unit, PLAIN_OR_INSTANCE) && !EndsWith(unit, SLICE) && Escape(unit).Some?
    ensures var path := SliceToPath(slice).value + "/" + Escape(unit).value;
      PathGetSlice(path) == Some(slice) && PathGetUnit(path) == Some(unit)
  {
    UnitPart(unit);
    var c := Escape(unit).value;
    SliceRecovered(slice, c, "");
    assert c + "" == c;
  }

  // ---------- user managers ----------

  function UserManager(uid: string): string { "user@" + uid + ".service" }

  function Pow10(n: nat): nat { if n == 0 then 1 else 10 * Pow10(n - 1) }

  lemma {:induction false} DecimalLarge(s: string)
    requires s != "" && s[0] != '0' && forall i | 0 <= i < |s| :: IsDigit(s[i])
    ensures Decimal(s) >= Pow10(|s| - 1)
    decreases |s|
  {
    if |s| > 1 {
      DecimalLarge(s[..|s| - 1]);
    } else {
      assert s[..0] == "";
    }
  }

  lemma {:induction false} Pow10Grows(n: nat)
    requires n >= 10
    ensures Pow10(n) >= 10_000_000_000
  {
    if n > 10 {
      Pow10Grows(n - 1);
    } else {
      assert Pow10(5) == 100_000;
      assert Pow10(10) == 100_000 * Pow10(5);
    }
  }

  lemma UidIsShort(uid: string)
    requires ParsesAsUid(uid)
    ensures 1 <= |uid| <= 10
  {
    if |uid| > 10 {
      DecimalLarge(uid);
      Pow10Grows(|uid| - 1);
    }
  }

  lemma ManagerShape(uid: string)
    requires ParsesAsUid(uid)
    ensures var m := UserManager(uid);
      && |m| == |uid| + 13
      && (forall i | 0 <= i < 5 :: m[i] == "user@"[i])
      && (forall i | 0 <= i < |uid| :: m[5 + i] == uid[i])
      && m[5 + |uid|..] == ".service" && m[5..|m| - 8] == uid
      && '/' !in m
  {
    var m := UserManager(uid);
    assert m == ("user@" + uid) + ".service";
    assert m[5 + |uid|..] == ".service";
    assert m[5..|m| - 8] == uid;
    assert forall i | 0 <= i < |uid| :: m[5 + i] == uid[i];
    forall i | 0 <= i < |m| ensures m[i] != '/' {
      if i >= 5 && i < 5 + |uid| {
        assert m[i] == uid[i - 5] && IsDigit(uid[i - 5]);
      } else if i >= 5 + |uid| {
        assert m[i] == ".service"[i - 5 - |uid|];
      }
    }
  }

  lemma ManagerLastDot(uid: string)
    requires ParsesAsUid(uid)
    ensures LastDot(UserManager(uid)) == 5 + |uid|
  {
    var m := UserManager(uid);
    ManagerShape(uid);
    var k := 5 + |uid|;
    assert forall i | 0 <= i < 8 :: m[k + i] == ".service"[i];
    assert m[..k + 8] == m;
    LastDotBack(m, k, 7);
  }

  lemma ManagerAt(uid: string)
    requires ParsesAsUid(uid)
    ensures IndexOf(UserManager(uid)[..5 + |uid|], '@', 0) == 4
  {
    var m := UserManager(uid);
    ManagerShape(uid);
    var p := m[..5 + |uid|];
    assert p[0] == 'u' && p[1] == 's' && p[2] == 'e' && p[3] == 'r' && p[4] == '@';
    assert IndexOf(p, '@', 4) == 4;
    assert IndexOf(p, '@', 3) == 4;
    assert IndexOf(p, '@', 2) == 4;
    assert IndexOf(p, '@', 1) == 4;
  }

  lemma ManagerIsUnit(uid: string)
    requires ParsesAsUid(uid)
    ensures UnitNameIsValid(UserManager(uid), PLAIN_OR_INSTANCE)
  {
    var m := UserManager(uid);
    ManagerShape(uid);
    ManagerLastDot(uid);
    ManagerAt(uid);
    UidIsShort(uid);
    var e := 5 + |uid|;
    assert m[e + 1..] == m[e..][1..] == "service";
    forall i | 0 <= i < e ensures ValidChar(m[i]) || m[i] == '@' {
      if i >= 5 { assert m[i] == uid[i - 5]; }
    }
    hide IndexOf, LastDot, UserManager, ParsesAsUid;
  }

  lemma ManagerPart(uid: string, rest: string)
    requires ParsesAsUid(uid) && (rest == "" || rest[0] == '/')
    ensures var m := UserManager(uid);
      && m != "" && '/' !in m && !ValidSliceName(m) && !EndsWith(m, SLICE)
      && DecodeUnit(m + rest) == Some(m)
      && SkipUserManager(m + rest) == Some(StripSlashes(rest))
  {
    var m := UserManager(uid);
    ManagerShape(uid);
    ManagerIsUnit(uid);
    HeadOf(m, rest);
    assert m[|m| - 8..] == ".service";
    assert m[|m| - 6..][0] == m[|m| - 6] == ".service"[2];
    assert SLICE[0] == '.';
    assert Unescape(m) == m by { assert m[0] == "user@"[0]; }
    assert "user@" <= m;
    UidIsShort(uid);
    hide UnitNameIsValid, UserManager, ParsesAsUid;
  }

  // ---------- the whole path ----------

  /** The cgroup of a user's unit. */
  function UserUnitPath(slice: string, uid: string, userSlice: string, unit: string): string
    requires SliceToPath(slice).Some? && SliceToPath(userSlice).Some? && Escape(unit).Some?
  {
    SliceToPath(slice).value + "/" +
    (UserManager(uid) + ("/" + (SliceToPath(userSlice).value + "/" + Escape(unit).value)))
  }

  lemma StripFirst(p: string)
    ensures SkipSlices(StripSlashes(p)) == SkipSlices(p) && PathGetSlice(StripSlashes(p)) == PathGetSlice(p)
  {
    StripTwice(p);
    hide ValidSliceName, DecodeUnit;
  }

  /** All four decoders read back what the path was made from, the root slice included. */
  lemma UserUnitRoundTrip(slice: string, uid: string, userSlice: string, unit: string)
    requires SliceToPath(slice).Some? && SliceToPath(userSlice).Some? && ParsesAsUid(uid)
    requires UnitNameIsValid(unit, PLAIN_OR_INSTANCE) && !EndsWith(unit, SLICE) && Escape(unit).Some?
    ensures var path := UserUnitPath(slice, uid, userSlice, unit);
      && PathGetSlice(path) == Some(slice)
      && PathGetUnit(path) == Some(UserManager(uid))
      && PathGetUserSlice(path) == Some(userSlice)
      && PathGetUserUnit(path) == Some(unit)
  {
    hide SliceToPath, Escape, UnitNameIsValid, ParsesAsUid, UserManager, PathGetSlice, SkipSlices, DecodeUnit,
      SkipUserManager, SkipSession;
    var m := UserManager(uid);
    var inner := SliceToPath(userSlice).value + "/" + Escape(unit).value;
    ManagerPart(uid, "/" + inner);
    SliceRecovered(slice, m, "/" + inner);
    SlashDropped(inner);
    StripFirst(inner);
    SystemUnitRoundTrip(userSlice, unit);
  }
}
