/**
 How unit names become cgroup paths and are read back from them (src/basic/cgroup-util.c), with the unit
 name rules of src/basic/unit-name.c.
 */
module CgroupNames {
  import opened Wrappers
  import opened PathUtil

  const ROOT_SLICE: string := "-.slice"
  const SLICE: string := ".slice"
  const UNIT_NAME_MAX: nat := 256

  predicate EndsWith(s: string, suffix: string)
  {
    |suffix| <= |s| && s[|s| - |suffix|..] == suffix
  }

  // ---------- unit names ----------

  predicate IsUnitType(t: string)
  {
    t in {"service", "socket", "target", "device", "mount", "automount", "swap", "timer", "path", "slice", "scope"}
  }

  predicate IsDigit(c: char) { '0' <= c <= '9' }

  predicate ValidChar(c: char)
  {
    IsDigit(c) || 'a' <= c <= 'z' || 'A' <= c <= 'Z' || c in ":-_.\\"
  }

  /** `strrchr(n, '.')`; -1 stands for NULL. */
  function LastDot(n: string): (e: int)
    ensures -1 <= e < |n|
  {
    if n == "" then -1
    else if n[|n| - 1] == '.' then |n| - 1
    else LastDot(n[..|n| - 1])
  }

  /** Where the first `c` at or after `from` is, `|s|` if there is none. */
  function IndexOf(s: string, c: char, from: nat): (i: nat)
    requires from <= |s|
    ensures from <= i <= |s|
    ensures i < |s| ==> s[i] == c
    decreases |s| - from
  {
    if from == |s| || s[from] == c then from else IndexOf(s, c, from + 1)
  }

  datatype NameFlags = NameFlags(plain: bool, instance: bool, template: bool)

  const PLAIN: NameFlags := NameFlags(true, false, false)
  const PLAIN_OR_INSTANCE: NameFlags := NameFlags(true, true, false)

  predicate UnitNameIsValid(n: string, flags: NameFlags)
  {
    var e := LastDot(n);
    && n != "" && |n| < UNIT_NAME_MAX
    && e > 0
    && IsUnitType(n[e + 1..])
    && (forall i | 0 <= i < e :: ValidChar(n[i]) || n[i] == '@')
    && var at := IndexOf(n[..e], '@', 0);
       && at != 0
       && ((flags.plain && at == e) || (flags.instance && at + 1 < e) || (flags.template && at + 1 == e))
  }

  // ---------- escaping ----------

  predicate FilenameIsValid(p: string)
  {
    p != "" && p != "." && p != ".." && '/' !in p && |p| <= NAME_MAX
  }

  const CONTROLLERS: seq<string> := [
    "cpu", "cpuacct", "cpuset", "io", "blkio", "memory", "devices", "pids", "bpf-firewall", "bpf-devices",
    "bpf-foreign", "bpf-socket-bind", "bpf-restrict-network-interfaces"]

  predicate NeedsEscape(p: string)
  {
    || !FilenameIsValid(p)
    || p[0] == '_' || p[0] == '.'
    || p in ["notify_on_release", "release_agent", "tasks"]
    || "cgroup." <= p
    || exists i | 0 <= i < |CONTROLLERS| :: CONTROLLERS[i] + "." <= p
  }

  function Escape(p: string): Option<string>
  {
    if !NeedsEscape(p) then Some(p)
    else if FilenameIsValid("_" + p) then Some("_" + p)
    else None
  }

  function Unescape(p: string): string
  {
    if p != "" && p[0] == '_' then p[1..] else p
  }

  /** Reading an escaped name gives it back, and it is one path component. */
  lemma EscapeRoundTrip(p: string)
    requires Escape(p).Some?
    ensures Unescape(Escape(p).value) == p
    ensures FilenameIsValid(Escape(p).value)
    ensures Escape(p).value == p || Escape(p).value == "_" + p
  {
    if NeedsEscape(p) { assert ("_" + p)[1..] == p; }
  }

  // ---------- cg_slice_to_path ----------

  /** The escaped names of the slices that a slice with prefix `p` lies in, from the `-` at `dash` on. */
  function Ancestors(p: string, dash: nat): Option<seq<string>>
    requires dash <= |p|
    decreases |p| - dash
  {
    if dash == |p| then Some([])
    else if dash + 1 == |p| || p[dash + 1] == '-' then None
    else
      var n := p[..dash] + SLICE;
      if !UnitNameIsValid(n, PLAIN) || Escape(n).None? then None
      else
        match Ancestors(p, IndexOf(p, '-', dash + 1))
        case None => None
        case Some(rest) => Some([Escape(n).value] + rest)
  }

  /** The components of a slice's path: its ancestors, then itself. */
  function SliceComponents(unit: string): Option<seq<string>>
  {
    if unit == ROOT_SLICE then Some([])
    else if !UnitNameIsValid(unit, PLAIN) || !EndsWith(unit, SLICE) then None
    else
      var p := unit[..LastDot(unit)];
      var dash := IndexOf(p, '-', 0);
      if dash == 0 && p != "" then None
      else
        match (Ancestors(p, dash), Escape(unit))
        case (Some(above), Some(e)) => Some(above + [e])
        case _ => None
  }

  function SliceToPath(unit: string): Option<string>
  {
    match SliceComponents(unit)
    case None => None
    case Some(names) => Some(Joined(names, ""))
  }

  method CgSliceToPath(unit: string) returns (r: Option<string>)
    ensures r == SliceToPath(unit)
  {
    if unit == ROOT_SLICE {
      return Some("");
    }
    if !UnitNameIsValid(unit, PLAIN) || !EndsWith(unit, SLICE) {
      return None;
    }
    var p := unit[..LastDot(unit)];
    assert p != "";
    hide UnitNameIsValid, Escape, Ancestors, Joined;
    var dash := IndexOf(p, '-', 0);
    if dash == 0 {
      return None;
    }
    hide SliceToPath;
    var s := AncestorLoop(p, dash);
    if s.None? {
      RefusedSlice(unit, p);
      return None;
    }
    AcceptedSlice(unit, p, Ancestors(p, dash).value);
    var e := Escape(unit);
    if e.None? {
      return None;
    }
    r := Some(s.value + e.value);
  }

  /** The loop over the dashes of the prefix. */
  method AncestorLoop(p: string, dash0: nat) returns (r: Option<string>)
    requires 0 < dash0 <= |p|
    ensures var above := Ancestors(p, dash0); r == if above.None? then None else Some(AllJoined(above.value))
  {
    hide Ancestors, UnitNameIsValid, Escape, AllJoined;
    var s := "";
    var dash := dash0;
    ghost var above: seq<string> := [];
    ghost var whole := Ancestors(p, dash);
    NothingJoined();
    assert whole.Some? ==> [] + whole.value == whole.value;
    while dash < |p|
      invariant 0 < dash <= |p|
      invariant s == AllJoined(above)
      invariant var left := Ancestors(p, dash);
                whole == if left.Some? then Some(above + left.value) else None
      decreases |p| - dash
    {
      AncestorsUnfold(p, dash);
      if dash + 1 == |p| || p[dash + 1] == '-' {
        return None;
      }
      var n := p[..dash] + SLICE;
      if !UnitNameIsValid(n, PLAIN) {
        return None;
      }
      var escaped := Escape(n);
      if escaped.None? {
        return None;
      }
      s := s + escaped.value + "/";
      AllJoinedNext(above, escaped.value);
      ghost var left := Ancestors(p, IndexOf(p, '-', dash + 1));
      assert left.Some? ==> above + ([escaped.value] + left.value) == (above + [escaped.value]) + left.value;
      above := above + [escaped.value];
      dash := IndexOf(p, '-', dash + 1);
    }
    AncestorsUnfold(p, dash);
    assert above + [] == above;
    r := Some(s);
  }

  /** Names joined so that a slash follows each. */
  function AllJoined(names: seq<string>): string
  {
    if names == [] then "" else AllJoined(names[..|names| - 1]) + names[|names| - 1] + "/"
  }

  lemma NothingJoined()
    ensures AllJoined([]) == ""
  {
  }

  lemma AllJoinedNext(names: seq<string>, x: string)
    ensures AllJoined(names + [x]) == AllJoined(names) + x + "/"
  {
    assert (names + [x])[..|names|] == names;
  }

  lemma {:induction false} AllJoinedThen(names: seq<string>, x: string)
    requires x != ""
    ensures AllJoined(names) + x == Joined(names + [x], "")
    ensures AllJoined(names) + x == Joined(names, x)
    decreases |names|
  {
    JoinedSnoc(names, x, "");
    assert Joined([x], "") == x;
    if names != [] {
      var k := |names| - 1;
      var front, y := names[..k], names[k];
      assert names == front + [y];
      var t := y + "/" + x;
      AllJoinedThen(front, t);
      assert AllJoined(front) + y + "/" + x == AllJoined(front) + t;
      JoinedOne(front, y, x);
    } else {
      assert names + [x] == [x];
    }
  }

  lemma {:induction false} JoinedOne(front: seq<string>, y: string, x: string)
    requires x != ""
    ensures Joined(front + [y], x) == Joined(front, y + "/" + x)
  {
    if front == [] {
      assert front + [y] == [y];
      assert [y][1..] == [];
    } else {
      assert (front + [y])[1..] == front[1..] + [y];
      JoinedOne(front[1..], y, x);
    }
  }

  lemma AncestorsUnfold(p: string, dash: nat)
    requires dash <= |p|
    ensures Ancestors(p, dash) ==
      if dash == |p| then Some([])
      else if dash + 1 == |p| || p[dash + 1] == '-' || !UnitNameIsValid(p[..dash] + SLICE, PLAIN)
              || Escape(p[..dash] + SLICE).None? || Ancestors(p, IndexOf(p, '-', dash + 1)).None? then None
      else Some([Escape(p[..dash] + SLICE).value] + Ancestors(p, IndexOf(p, '-', dash + 1)).value)
  {
    hide UnitNameIsValid, Escape;
  }

  lemma RefusedSlice(unit: string, p: string)
    requires unit != ROOT_SLICE && UnitNameIsValid(unit, PLAIN) && EndsWith(unit, SLICE)
    requires p == unit[..LastDot(unit)] && Ancestors(p, IndexOf(p, '-', 0)) == None
    ensures SliceToPath(unit) == None
  {
    hide Ancestors, Escape;
  }

  lemma AcceptedSlice(unit: string, p: string, above: seq<string>)
    requires unit != ROOT_SLICE && UnitNameIsValid(unit, PLAIN) && EndsWith(unit, SLICE)
    requires p == unit[..LastDot(unit)] && IndexOf(p, '-', 0) > 0
    requires Ancestors(p, IndexOf(p, '-', 0)) == Some(above)
    ensures Escape(unit).None? ==> SliceToPath(unit) == None
    ensures Escape(unit).Some? ==> SliceToPath(unit) == Some(AllJoined(above) + Escape(unit).value)
  {
    hide Ancestors, Escape, UnitNameIsValid;
    if Escape(unit).Some? {
      EscapedNotEmpty(unit);
      AllJoinedThen(above, Escape(unit).value);
    }
  }

  lemma EscapedNotEmpty(p: string)
    requires Escape(p).Some?
    ensures Escape(p).value != ""
  {
    EscapeRoundTrip(p);
  }

  // ---------- reading paths back ----------

  /** `p += strspn(p, "/")` */
  function StripSlashes(p: string): (r: string)
    ensures |r| <= |p|
  {
    if p != "" && p[0] == '/' then StripSlashes(p[1..]) else p
  }

  /** The component a path starts with. */
  function Head(p: string): string { p[..SlashIndex(p)] }

  predicate ValidSliceName(c: string)
  {
    |c| >= |"x.slice"| && EndsWith(c, SLICE) && UnitNameIsValid(Unescape(c), PLAIN)
  }

  function SkipSlices(p: string): (r: string)
    decreases |p|
  {
    var q := StripSlashes(p);
    if !ValidSliceName(Head(q)) then q else SkipSlices(q[SlashIndex(q)..])
  }

  method CgSkipSlices(path: string) returns (r: string)
    ensures r == SkipSlices(path)
  {
    hide ValidSliceName;
    var p := path;
    while true
      invariant SkipSlices(p) == SkipSlices(path)
      decreases |p|
    {
      p := StripSlashes(p);
      StripTwice(p);
      var n := SlashIndex(p);
      if !ValidSliceName(p[..n]) {
        return p;
      }
      SliceNotEmpty(p[..n]);
      p := p[n..];
    }
  }

  lemma StripTwice(p: string)
    ensures p == "" || p[0] != '/' ==> StripSlashes(p) == p
    ensures StripSlashes(StripSlashes(p)) == StripSlashes(p)
  {
  }

  lemma SliceNotEmpty(c: string)
    ensures ValidSliceName(c) ==> |c| >= 7
  {
  }

  function DecodeUnit(cgroup: string): Option<string>
  {
    var c := Unescape(Head(cgroup));
    if SlashIndex(cgroup) >= 3 && UnitNameIsValid(c, PLAIN_OR_INSTANCE) then Some(c) else None
  }

  function PathGetUnit(path: string): Option<string>
  {
    match DecodeUnit(SkipSlices(path))
    case Some(unit) => if EndsWith(unit, SLICE) then None else Some(unit)
    case None => None
  }

  /** `cg_path_get_slice` with the last slice seen so far at `e`. */
  function GetSliceFrom(p: string, e: Option<string>): Option<string>
    decreases |p|
  {
    var q := StripSlashes(p);
    if !ValidSliceName(Head(q)) then (if e.None? then Some(ROOT_SLICE) else DecodeUnit(e.value))
    else GetSliceFrom(q[SlashIndex(q)..], Some(q))
  }

  function PathGetSlice(p: string): Option<string> { GetSliceFrom(p, None) }

  method CgPathGetSlice(path: string) returns (r: Option<string>)
    ensures r == PathGetSlice(path)
  {
    hide ValidSliceName, DecodeUnit;
    var p, e: Option<string> := path, None;
    while true
      invariant GetSliceFrom(p, e) == PathGetSlice(path)
      decreases |p|
    {
      p := StripSlashes(p);
      StripTwice(p);
      var n := SlashIndex(p);
      if !ValidSliceName(p[..n]) {
        if e.None? {
          return Some(ROOT_SLICE);
        }
        return DecodeUnit(e.value);
      }
      SliceNotEmpty(p[..n]);
      e := Some(p);
      p := p[n..];
    }
  }

  /** The value of a string of decimal digits. */
  function Decimal(s: string): nat
  {
    if s == "" || !IsDigit(s[|s| - 1]) then 0 else Decimal(s[..|s| - 1]) * 10 + (s[|s| - 1] as nat - '0' as nat)
  }

  predicate ParsesAsUid(s: string)
  {
    && s != "" && (forall i | 0 <= i < |s| :: IsDigit(s[i]))
    && (s[0] == '0' ==> s == "0")
    && Decimal(s) < 0xFFFF_FFFF && Decimal(s) != 0xFFFF
  }

  function SkipUserManager(path: string): Option<string>
  {
    if path == "" then None
    else
      var p := StripSlashes(path);
      var n := SlashIndex(p);
      var c := p[..n];
      if |c| >= |"user@x.service"| && "user@" <= c && EndsWith(c, ".service") && ParsesAsUid(c[5..|c| - 8])
      then Some(StripSlashes(p[n..]))
      else None
  }

  predicate SessionIdIsValid(s: string)
  {
    s != "" && forall i | 0 <= i < |s| :: IsDigit(s[i]) || 'a' <= s[i] <= 'z' || 'A' <= s[i] <= 'Z'
  }

  function SkipSession(path: string): Option<string>
  {
    if path == "" then None
    else
      var p := StripSlashes(path);
      var n := SlashIndex(p);
      var c := p[..n];
      if |c| >= |"session-x.scope"| && "session-" <= c && EndsWith(c, ".scope") && SessionIdIsValid(c[8..|c| - 6])
      then Some(StripSlashes(p[n..]))
      else None
  }

  function SkipUserPrefix(path: string): Option<string>
  {
    var e := SkipSlices(path);
    var t := SkipUserManager(e);
    if t.Some? then t else SkipSession(e)
  }

  function PathGetUserUnit(path: string): Option<string>
  {
    match SkipUserPrefix(path)
    case Some(t) => PathGetUnit(t)
    case None => None
  }

  function PathGetUserSlice(path: string): Option<string>
  {
    match SkipUserPrefix(path)
    case Some(t) => PathGetSlice(t)
    case None => None
  }
}
