/**
 The string helpers of src/basic/path-util.c that path resolution is written in, and the
 component sequence each of them denotes.

 A C string is a `string`; a NULL pointer passed to `path_extend` behaves like "".
 */
module PathUtil {

  const NAME_MAX: nat := 255
  const PATH_MAX: nat := 4096

  // ---------- the meaning of a path string ----------

  /** Where `strchrnul(s, '/')` points. */
  function SlashIndex(s: string): (i: nat)
    ensures i <= |s|
  {
    if s == "" || s[0] == '/' then 0 else 1 + SlashIndex(s[1..])
  }

  lemma SlashIndexIsFirst(s: string)
    ensures var i := SlashIndex(s); '/' !in s[..i] && (i < |s| ==> s[i] == '/')
  {
  }

  /** The pieces between slashes, empty ones included. */
  function Split(s: string): seq<string>
  {
    var i := SlashIndex(s);
    if i == |s| then [s] else [s[..i]] + Split(s[i + 1..])
  }

  /** Drops the pieces that do not name anything: "" (duplicate slashes) and ".". */
  function Proper(parts: seq<string>): seq<string>
  {
    if parts == [] then []
    else if parts[0] == "" || parts[0] == "." then Proper(parts[1..])
    else [parts[0]] + Proper(parts[1..])
  }

  /** The component sequence a path string denotes. */
  function Components(s: string): seq<string>
  {
    Proper(Split(s))
  }

  /** A string that can be one component. */
  predicate IsComponent(n: string)
  {
    n != "" && n != "." && '/' !in n
  }

  /** A component short enough for `path_find_first_component` and different from "..". */
  predicate IsName(n: string)
  {
    IsComponent(n) && n != ".." && |n| <= NAME_MAX
  }

  predicate AllComponents(names: seq<string>)
  {
    forall i | 0 <= i < |names| :: IsComponent(names[i])
  }

  predicate AllNames(names: seq<string>)
  {
    forall i | 0 <= i < |names| :: IsName(names[i])
  }

  // ---------- lexing from the left ----------

  /** `skip_slash_or_dot` */
  function SkipSlashOrDot(p: string): (q: string)
    ensures |q| <= |p|
  {
    if p == "" then p
    else if p[0] == '/' then SkipSlashOrDot(p[1..])
    else if "./" <= p then SkipSlashOrDot(p[2..])
    else p
  }

  lemma SkipStops(p: string)
    ensures var q := SkipSlashOrDot(p); q != "" ==> q[0] != '/' && !("./" <= q)
  {
  }

  /** What `path_find_first_component` hands back. `from` is the pointer stored in `*ret`. */
  datatype Lexed =
    | NoComponent
    | BadComponent
    | Component(from: string, name: string, rest: string)

  function FindFirstComponent(p: string, acceptDotDot: bool): (r: Lexed)
    ensures r.Component? ==> |r.rest| < |r.from| <= |p|
  {
    var first := SkipSlashOrDot(p);
    SkipStops(p);
    if first == "" || first == "." then NoComponent
    else
      var len := SlashIndex(first);
      if len > NAME_MAX || (!acceptDotDot && first[..len] == "..") then BadComponent
      else
        var next := SkipSlashOrDot(first[len..]);
        Component(first, first[..len], if next == "." then "" else next)
  }

  /** `path_is_valid_full`, from the point where `*e` is still to be looked at. */
  predicate IsValidFrom(total: nat, e: string, acceptDotDot: bool)
    decreases |e|
  {
    match FindFirstComponent(e, acceptDotDot)
    case BadComponent => false
    case NoComponent => total < PATH_MAX
    case Component(_, _, rest) =>
      total - |rest| < PATH_MAX && (rest == "" || IsValidFrom(total, rest, acceptDotDot))
  }

  predicate PathIsValidFull(p: string, acceptDotDot: bool)
  {
    p != "" && IsValidFrom(|p|, p, acceptDotDot)
  }

  predicate PathIsSafe(p: string)
  {
    PathIsValidFull(p, false)
  }

  // ---------- joining ----------

  /** `path_extend` and `path_join` with one string added. */
  function PathExtend(x: string, p: string): string
  {
    if p == "" then x
    else if x == "" || x[|x| - 1] == '/' || p[0] == '/' then x + p
    else x + "/" + p
  }

  /** `names` with slashes in between, followed by `tail`. */
  function Joined(names: seq<string>, tail: string): string
  {
    if names == [] then tail
    else if |names| == 1 && tail == "" then names[0]
    else names[0] + "/" + Joined(names[1..], tail)
  }

  /** The normalised string of a component sequence. */
  function Render(absolute: bool, names: seq<string>): string
  {
    (if absolute then "/" else "") + Joined(names, "")
  }

  // ---------- taking the last component off ----------

  /** `skip_slash_or_dot_backward`; -1 stands for the NULL it returns. */
  function SkipBackward(path: string, q: int): (r: int)
    requires -1 <= q < |path|
    ensures -1 <= r <= q
  {
    if q < 0 then -1
    else if path[q] == '/' then SkipBackward(path, q - 1)
    else if q > 0 && path[q - 1] == '/' && path[q] == '.' then SkipBackward(path, q - 1)
    else if q == 0 && path[q] == '.' then -1
    else q
  }

  function BackToSlash(path: string, q: int): (r: int)
    requires -1 <= q < |path|
    ensures -1 <= r <= q
  {
    if q < 0 || path[q] == '/' then q else BackToSlash(path, q - 1)
  }

  /** `path_simplify`, from the point where `*p` is still to be copied. */
  function SimplifyFrom(p: string, absolute: bool, beginning: bool, addSlash: bool): string
    decreases |p|
  {
    match FindFirstComponent(p, true)
    case NoComponent => ""
    case BadComponent => (if addSlash then "/" else "") + p
    case Component(_, name, rest) =>
      if absolute && beginning && name == ".." then SimplifyFrom(rest, absolute, beginning, addSlash)
      else (if addSlash then "/" else "") + name + SimplifyFrom(rest, absolute, false, true)
  }

  function PathSimplify(path: string): string
  {
    if path == "" then path
    else
      var absolute := path[0] == '/';
      var body := SimplifyFrom(if absolute then path[1..] else path, absolute, true, false);
      if absolute then "/" + body else if body == "" then "." else body
  }

  datatype Extracted =
    | InDirectory(dir: string)
    | NoDirectory     // -EDESTADDRREQ
    | NoFilename      // -EADDRNOTAVAIL
    | InvalidPath     // -EINVAL

  /** `path_extract_directory` on top of `path_find_last_component`. */
  function PathExtractDirectory(path: string): Extracted
  {
    if path == "" then InvalidPath
    else
      var q := SkipBackward(path, |path| - 1);
      if q < 0 || (q == 0 && path[0] == '.') then NoFilename
      else ExtractLast(path, q, BackToSlash(path, q))
  }

  /** The last component is `path[slash + 1..q + 1]`; cut it off. */
  function ExtractLast(path: string, q: int, slash: int): Extracted
    requires -1 <= slash <= q && 0 <= q < |path|
  {
    var name := path[slash + 1..q + 1];
    if |name| > NAME_MAX || name == ".." then InvalidPath
    else
      var next := SkipBackward(path, slash) + 1;
      if next == 0 then
        if path[0] != '/' then NoDirectory else InDirectory("/")
      else ParentIfValid(PathSimplify(path[..next]))
  }

  function ParentIfValid(a: string): Extracted
  {
    if PathIsValidFull(a, true) then InDirectory(a) else InvalidPath
  }

  // ---------- lemmas: lexing agrees with the meaning ----------

  lemma SlashIndexOf(a: string, b: string)
    requires '/' !in a
    requires b == "" || b[0] == '/'
    ensures SlashIndex(a + b) == |a|
  {
    if a != "" {
      assert (a + b)[1..] == a[1..] + b;
      SlashIndexOf(a[1..], b);
    } else {
      assert a + b == b;
    }
  }

  lemma {:induction false} SplitConcat(a: string, b: string)
    ensures Split(a + "/" + b) == Split(a) + Split(b)
    decreases |a|
  {
    var s := a + "/" + b;
    var i := SlashIndex(a);
    SlashIndexIsFirst(a);
    if i == |a| {
      assert a[..i] == a;
      assert s == a + ("/" + b);
      SlashIndexOf(a, "/" + b);
      assert s[..|a|] == a && s[|a| + 1..] == b;
    } else {
      assert s == a[..i] + (a[i..] + "/" + b);
      SlashIndexOf(a[..i], a[i..] + "/" + b);
      assert s[..i] == a[..i];
      assert s[i + 1..] == a[i + 1..] + "/" + b;
      SplitConcat(a[i + 1..], b);
    }
  }

  lemma ProperConcat(a: seq<string>, b: seq<string>)
    ensures Proper(a + b) == Proper(a) + Proper(b)
  {
    if a == [] {
      assert a + b == b;
    } else {
      assert (a + b)[1..] == a[1..] + b;
      ProperConcat(a[1..], b);
    }
  }

  lemma ComponentsSlash(a: string, b: string)
    ensures Components(a + "/" + b) == Components(a) + Components(b)
  {
    SplitConcat(a, b);
    ProperConcat(Split(a), Split(b));
  }

  lemma ComponentsSingle(n: string)
    requires '/' !in n
    ensures Components(n) == if n == "" || n == "." then [] else [n]
  {
    assert n + "" == n;
    SlashIndexOf(n, "");
    assert Split(n) == [n];
    assert Proper([n][1..]) == [];
  }

  lemma ComponentsSkip(p: string)
    ensures Components(SkipSlashOrDot(p)) == Components(p)
  {
    if p == "" {
    } else if p[0] == '/' {
      assert p == "" + "/" + p[1..];
      ComponentsSlash("", p[1..]);
      ComponentsSingle("");
      ComponentsSkip(p[1..]);
    } else if "./" <= p {
      assert p == "." + "/" + p[2..];
      ComponentsSlash(".", p[2..]);
      ComponentsSingle(".");
      ComponentsSkip(p[2..]);
    }
  }

  /** A skipped string that is neither "" nor "." starts with a real component. */
  lemma FirstPiece(q: string)
    requires q != "" && q != "." && q[0] != '/' && !("./" <= q)
    ensures IsComponent(q[..SlashIndex(q)])
    ensures Components(q) == [q[..SlashIndex(q)]] + Components(q[SlashIndex(q)..])
  {
    var len := SlashIndex(q);
    SlashIndexIsFirst(q);
    PieceIsComponent(q, len);
    ComponentsSingle(q[..len]);
    ComponentsSingle("");
    if len < |q| {
      ComponentsAtSlash(q, len);
    } else {
      assert q == q[..len] && q[len..] == "";
    }
  }

  lemma PieceIsComponent(q: string, len: nat)
    requires q != "" && q != "." && q[0] != '/' && !("./" <= q)
    requires len <= |q| && '/' !in q[..len] && (len < |q| ==> q[len] == '/')
    ensures IsComponent(q[..len])
  {
    assert len == 1 && q[0] == '.' ==> |q| == 1;
    assert |q[..len]| == len && q[..len][0] == q[0];
  }

  lemma ComponentsAtSlash(q: string, len: nat)
    requires len < |q| && q[len] == '/'
    ensures Components(q) == Components(q[..len]) + Components(q[len..])
  {
    assert q == q[..len] + "/" + q[len + 1..];
    ComponentsSlash(q[..len], q[len + 1..]);
    assert q[len..] == "" + "/" + q[len + 1..];
    ComponentsSlash("", q[len + 1..]);
    ComponentsSingle("");
  }

  /** The lexer takes the first component off, and leaves an empty rest exactly when it was the last. */
  lemma FirstComponentMeaning(p: string, acceptDotDot: bool)
    ensures var r := FindFirstComponent(p, acceptDotDot);
            match r
            case NoComponent => Components(p) == []
            case BadComponent =>
              Components(p) != [] && (|Components(p)[0]| > NAME_MAX || (!acceptDotDot && Components(p)[0] == ".."))
            case Component(from, name, rest) =>
              && Components(p) == [name] + Components(rest)
              && IsComponent(name) && |name| <= NAME_MAX && (acceptDotDot || name != "..")
              && (rest == "" <==> Components(rest) == [])
              && Components(from) == Components(p)
  {
    var first := SkipSlashOrDot(p);
    ComponentsSkip(p);
    ComponentsSingle("");
    ComponentsSingle(".");
    if first != "" && first != "." {
      SkipStops(p);
      FirstPiece(first);
      var tail := first[SlashIndex(first)..];
      ComponentsSkip(tail);
      var next := SkipSlashOrDot(tail);
      SkipStops(tail);
      if next != "" && next != "." {
        FirstPiece(next);
      }
    }
  }

  /** Joining two path strings joins their component sequences. */
  lemma ExtendMeaning(x: string, p: string)
    ensures Components(PathExtend(x, p)) == Components(x) + Components(p)
  {
    ComponentsSingle("");
    if p == "" || x == "" {
      assert x + p == if p == "" then x else p;
    } else if x[|x| - 1] == '/' {
      var x' := x[..|x| - 1];
      assert x + p == x' + "/" + p && x == x' + "/" + "";
      ComponentsSlash(x', p);
      ComponentsSlash(x', "");
    } else if p[0] == '/' {
      assert x + p == x + "/" + p[1..] && p == "" + "/" + p[1..];
      ComponentsSlash(x, p[1..]);
      ComponentsSlash("", p[1..]);
    } else {
      ComponentsSlash(x, p);
    }
  }

  // ---------- lemmas: normalised strings ----------

  /** A string the lexer would not skip anything in front of. */
  predicate Skipped(t: string)
  {
    t == "" || (t[0] != '/' && !("./" <= t) && t != ".")
  }

  lemma JoinedSkipped(names: seq<string>, t: string)
    requires AllComponents(names)
    requires Skipped(t)
    ensures Skipped(Joined(names, t))
    ensures names != [] ==> Joined(names, t) != ""
  {
    if names != [] {
      var n := names[0];
      assert Joined(names, t)[0] == n[0];
      assert |n| >= 2 ==> Joined(names, t)[1] == n[1];
    }
  }

  lemma SkippedWord(n: string, tail: string)
    requires IsComponent(n)
    requires tail == "" || tail[0] == '/'
    ensures Skipped(n + tail) && n + tail != ""
  {
    assert (n + tail)[0] == n[0];
    assert |n| >= 2 ==> (n + tail)[1] == n[1];
  }

  lemma LexWord(n: string, tail: string, rest: string, acceptDotDot: bool)
    requires IsComponent(n) && |n| <= NAME_MAX && (acceptDotDot || n != "..")
    requires Skipped(rest)
    requires tail == if rest == "" then "" else "/" + rest
    ensures FindFirstComponent(n + tail, acceptDotDot) == Component(n + tail, n, rest)
  {
    SkippedWord(n, tail);
    SlashIndexOf(n, tail);
    assert (n + tail)[..|n|] == n && (n + tail)[|n|..] == tail;
    if rest != "" { assert tail[1..] == rest; }
    assert SkipSlashOrDot(rest) == rest;
    assert SkipSlashOrDot(tail) == rest;
    assert SkipSlashOrDot(n + tail) == n + tail;
  }

  lemma JoinedHead(n: string, ns: seq<string>, t: string)
    requires AllComponents(ns) && Skipped(t)
    ensures var rest := Joined(ns, t);
            Joined([n] + ns, t) == n + if rest == "" then "" else "/" + rest
  {
    JoinedSkipped(ns, t);
    assert ([n] + ns)[1..] == ns;
    if Joined(ns, t) == "" {
      assert n + "" == n;
    } else {
      assert n + "/" + Joined(ns, t) == n + ("/" + Joined(ns, t));
    }
  }

  /** Lexing a normalised string gives its components one by one. */
  lemma LexJoined(n: string, ns: seq<string>, t: string, acceptDotDot: bool)
    requires IsComponent(n) && |n| <= NAME_MAX && (acceptDotDot || n != "..")
    requires AllComponents(ns)
    requires Skipped(t)
    ensures var s := Joined([n] + ns, t);
            FindFirstComponent(s, acceptDotDot) == Component(s, n, Joined(ns, t))
  {
    JoinedSkipped(ns, t);
    JoinedHead(n, ns, t);
    var rest := Joined(ns, t);
    LexWord(n, if rest == "" then "" else "/" + rest, rest, acceptDotDot);
  }

  /** The lexer does not see a leading slash or "./". */
  lemma LexDot()
    ensures FindFirstComponent(".", true) == FindFirstComponent("", true) == NoComponent
  {
  }

  lemma LexSkips(p: string, acceptDotDot: bool)
    ensures FindFirstComponent("/" + p, acceptDotDot) == FindFirstComponent(p, acceptDotDot)
    ensures FindFirstComponent("./" + p, acceptDotDot) == FindFirstComponent(p, acceptDotDot)
  {
    assert ("/" + p)[1..] == p && ("./" + p)[2..] == p;
  }

  /** What the lexer leaves of a string that it skips: a lone "." goes too. */
  function Lead(p: string): string
  {
    var q := SkipSlashOrDot(p);
    if q == "." then "" else q
  }

  lemma LeadIs(p: string)
    ensures p != "" && p[0] == '/' ==> Lead(p) == Lead(p[1..])
    ensures "./" <= p ==> Lead(p) == Lead(p[2..])
    ensures Skipped(p) ==> Lead(p) == p
    ensures Lead(".") == ""
    ensures Skipped(Lead(p))
  {
    SkipStops(p);
  }

  /** Putting something behind a string leaves what is in front. */
  lemma ExtendFrom(p: string, r: string, k: nat)
    requires r != "" && k < |p|
    ensures |PathExtend(p, r)| > |p|
    ensures PathExtend(p, r)[k..] == PathExtend(p[k..], r) && PathExtend(p, r)[..k] == p[..k]
    ensures PathExtend(p, r)[k] == p[k]
  {
  }

  lemma {:induction false} LeadExtend(p: string, r: string)
    requires r != "" && Skipped(r)
    ensures Lead(PathExtend(p, r)) == PathExtend(Lead(p), r)
    decreases |p|
  {
    var x := PathExtend(p, r);
    if p == "" {
      LeadIs(r);
      assert x == r && Lead(p) == "";
    } else if p == "." {
      LeadIs(x);
      LeadIs(r);
      assert x == "./" + r && x[2..] == r;
    } else {
      hide Lead, PathExtend, Skipped;
      LeadIs(p);
      LeadIs(x);
      ExtendFrom(p, r, 0);
      if p[0] == '/' {
        LeadExtend(p[1..], r);
        AfterFirst(p, r, 1);
      } else if "./" <= p {
        LeadExtend(p[2..], r);
        ExtendFrom(p, r, 1);
        AfterFirst(p, r, 2);
      } else {
        StaysSkipped(p, r);
      }
    }
  }

  lemma AfterFirst(p: string, r: string, k: nat)
    requires r != "" && r[0] != '/' && 0 < k <= |p| && p[k - 1] == '/'
    ensures k <= |PathExtend(p, r)| && PathExtend(p, r)[k..] == PathExtend(p[k..], r)
  {
    if k < |p| { ExtendFrom(p, r, k); }
  }

  lemma StaysSkipped(p: string, r: string)
    requires p != "" && p != "." && p[0] != '/' && !("./" <= p) && r != ""
    ensures Skipped(p) && Skipped(PathExtend(p, r))
  {
    ExtendFrom(p, r, 0);
    if |p| > 1 { ExtendFrom(p, r, 1); }
    hide PathExtend;
  }

  lemma SlashInExtend(p: string, r: string)
    requires p != "" && r != "" && r[0] != '/'
    ensures var x, k := PathExtend(p, r), SlashIndex(p);
      && SlashIndex(x) == k && k <= |x| && x[..k] == p[..k]
      && x[k..] == if k == |p| then "/" + r else PathExtend(p[k..], r)
  {
    hide SlashIndex, PathExtend;
    var x, k := PathExtend(p, r), SlashIndex(p);
    SlashIndexIsFirst(p);
    if k == |p| {
      assert p == p[..k];
      WithoutSlash(p, r);
      SlashIndexOf(p, "/" + r);
    } else {
      ExtendFrom(p, r, k);
      FirstSlash(x, p[..k], k);
    }
  }

  lemma WithoutSlash(p: string, r: string)
    requires p != "" && '/' !in p && r != "" && r[0] != '/'
    ensures var x := PathExtend(p, r); x == p + ("/" + r) && x[..|p|] == p && x[|p|..] == "/" + r
  {
    assert p[|p| - 1] in p;
    assert p + "/" + r == p + ("/" + r);
  }

  lemma FirstSlash(x: string, a: string, k: nat)
    requires k < |x| && x[..k] == a && '/' !in a && x[k] == '/'
    ensures SlashIndex(x) == k
  {
    hide SlashIndex;
    assert x == a + x[k..] && x[k..][0] == '/';
    SlashIndexOf(a, x[k..]);
  }

  /** The lexer, in terms of what it skips to. */
  lemma LexLead(p: string)
    ensures FindFirstComponent(p, true) ==
      var first := Lead(p);
      if first == "" then NoComponent
      else
        var k := SlashIndex(first);
        if k > NAME_MAX then BadComponent else Component(first, first[..k], Lead(first[k..]))
  {
  }

  lemma RestExtend(first: string, r: string)
    requires first != "" && r != "" && Skipped(r)
    ensures var x, k := PathExtend(first, r), SlashIndex(first);
      && SlashIndex(x) == k && k <= |x| && x[..k] == first[..k]
      && Lead(x[k..]) == PathExtend(Lead(first[k..]), r)
  {
    hide Lead, SlashIndex, PathExtend;
    SlashInExtend(first, r);
    var k := SlashIndex(first);
    if k < |first| {
      LeadExtend(first[k..], r);
    } else {
      LeadIs("/" + r);
      LeadIs(r);
      LeadIs("");
      ExtendNothing(r);
      assert ("/" + r)[1..] == r && first[k..] == "";
    }
  }

  lemma ExtendNothing(r: string)
    ensures PathExtend("", r) == r && PathExtend(r, "") == r
  {
  }

  function Separator(x: string): string { if x == "" || x[|x| - 1] == '/' then "" else "/" }

  lemma ExtendIs(x: string, p: string)
    requires p != "" && p[0] != '/'
    ensures PathExtend(x, p) == x + Separator(x) + p && PathExtend(x, p) != ""
    ensures Separator(PathExtend(x, p)) == Separator(p)
    ensures x != "" ==> PathExtend(x, p)[0] == x[0]
    ensures x == "" ==> PathExtend(x, p)[0] == p[0]
  {
  }

  lemma ExtendAssoc(x: string, a: string, b: string)
    requires Skipped(a) && Skipped(b)
    ensures PathExtend(x, PathExtend(a, b)) == PathExtend(PathExtend(x, a), b)
  {
    hide PathExtend, Separator;
    if a == "" {
      ExtendNothing(x);
      ExtendNothing(b);
    } else if b == "" {
      ExtendNothing(a);
      ExtendNothing(PathExtend(x, a));
    } else {
      ExtendIs(a, b);
      ExtendIs(x, a);
      ExtendIs(x, PathExtend(a, b));
      ExtendIs(PathExtend(x, a), b);
      Regroup(x, Separator(x), a, Separator(a), b);
    }
  }

  lemma Regroup(x: string, s: string, a: string, t: string, b: string)
    ensures x + s + (a + t + b) == (x + s + a) + t + b
  {
  }

  /** Lexing what was put in front of a rest: the first component comes from there, and the rest stays behind. */
  lemma LexExtend(t: string, r: string)
    requires Skipped(r)
    ensures var x, l := FindFirstComponent(PathExtend(t, r), true), FindFirstComponent(t, true);
      && (l.NoComponent? ==> x == FindFirstComponent(r, true))
      && (l.BadComponent? ==> x.BadComponent?)
      && (l.Component? ==> x.Component? && x.name == l.name && x.rest == PathExtend(l.rest, r))
  {
    hide FindFirstComponent, Lead, SlashIndex, PathExtend, Skipped;
    LexLead(r);
    LeadIs(r);
    ExtendNothing(r);
    if r == "" {
      ExtendNothing(t);
      var l := FindFirstComponent(t, true);
      if l.Component? { ExtendNothing(l.rest); }
    } else {
      LexLead(t);
      LexLead(PathExtend(t, r));
      LeadExtend(t, r);
      if Lead(t) != "" {
        RestExtend(Lead(t), r);
        ExtendFrom(Lead(t), r, 0);
      }
    }
  }

  lemma {:induction false} JoinedSnoc(names: seq<string>, x: string, t: string)
    ensures Joined(names + [x], t) == Joined(names, Joined([x], t))
    requires x != ""
  {
    if names == [] {
      assert names + [x] == [x];
    } else {
      assert (names + [x])[1..] == names[1..] + [x];
      JoinedSnoc(names[1..], x, t);
    }
  }

  lemma {:induction false} JoinedSlash(names: seq<string>, t: string)
    requires names != [] && t != ""
    ensures Joined(names, t) == Joined(names, "") + "/" + t
  {
    if |names| > 1 {
      JoinedSlash(names[1..], t);
      assert names[0] + "/" + (Joined(names[1..], "") + "/" + t) == names[0] + "/" + Joined(names[1..], "") + "/" + t;
    }
  }

  lemma JoinedLast(names: seq<string>)
    requires names != [] && AllComponents(names)
    ensures var s := Joined(names, ""); s != "" && s[|s| - 1] != '/'
  {
    if |names| > 1 { JoinedLast(names[1..]); }
  }

  lemma RenderLast(absolute: bool, names: seq<string>)
    requires names != [] && AllComponents(names)
    ensures var s := Render(absolute, names); s != "" && s[|s| - 1] != '/'
  {
    JoinedLast(names);
    var s, j := Render(absolute, names), Joined(names, "");
    assert s[|s| - 1] == j[|j| - 1];
  }

  lemma ExtendWithSlash(x: string, p: string)
    requires x != "" && x[|x| - 1] != '/' && p != "" && p[0] != '/'
    ensures PathExtend(x, p) == x + "/" + p
  {
  }

  /** Appending to a rendered path: a component, or an unread tail. */
  lemma RenderExtend(absolute: bool, names: seq<string>, t: string)
    requires AllComponents(names)
    requires Skipped(t)
    ensures PathExtend(Render(absolute, names), t) == (if absolute then "/" else "") + Joined(names, t)
  {
    var top := if absolute then "/" else "";
    if t == "" {
    } else if names == [] {
      assert Render(absolute, names) == top;
    } else {
      hide Joined, IsComponent, PathExtend;
      RenderLast(absolute, names);
      JoinedSlash(names, t);
      ExtendWithSlash(Render(absolute, names), t);
      assert (top + Joined(names, "")) + "/" + t == top + (Joined(names, "") + "/" + t);
    }
  }

  lemma RenderSnoc(absolute: bool, names: seq<string>, x: string)
    requires AllComponents(names)
    requires IsComponent(x)
    ensures PathExtend(Render(absolute, names), x) == Render(absolute, names + [x])
  {
    JoinedSkipped([x], "");
    RenderExtend(absolute, names, x);
    JoinedSnoc(names, x, "");
  }

  /** A rendered path denotes its components. */
  lemma {:induction false} RenderMeaning(absolute: bool, names: seq<string>)
    requires AllComponents(names)
    ensures Components(Render(absolute, names)) == names
    decreases |names|
  {
    if names == [] {
      assert Render(absolute, names) == if absolute then "" + "/" + "" else "";
      ComponentsSingle("");
      ComponentsSlash("", "");
    } else {
      var k := |names| - 1;
      RenderMeaning(absolute, names[..k]);
      assert names[..k] + [names[k]] == names;
      RenderSnoc(absolute, names[..k], names[k]);
      ExtendMeaning(Render(absolute, names[..k]), names[k]);
      ComponentsSingle(names[k]);
    }
  }

  // ---------- lemmas: path_extract_directory on normalised strings ----------

  lemma FirstName(names: seq<string>)
    requires AllNames(names) && names != []
    ensures names[0] != ".." && AllNames(names[1..])
    ensures FindFirstComponent(Joined(names, ""), true) ==
      Component(Joined(names, ""), names[0], Joined(names[1..], ""))
  {
    LexJoined(names[0], names[1..], "", true);
    assert [names[0]] + names[1..] == names;
  }

  lemma SimplifyNothing(absolute: bool, beginning: bool, addSlash: bool)
    ensures Joined([], "") == "" && SimplifyFrom("", absolute, beginning, addSlash) == ""
  {
  }

  lemma SimplifyOne(p: string, name: string, rest: string, absolute: bool, beginning: bool, addSlash: bool)
    requires FindFirstComponent(p, true) == Component(p, name, rest) && name != ".."
    ensures SimplifyFrom(p, absolute, beginning, addSlash)
         == (if addSlash then "/" else "") + name + SimplifyFrom(rest, absolute, false, true)
  {
    hide FindFirstComponent;
  }

  lemma NamesAreComponents(names: seq<string>)
    requires AllNames(names)
    ensures AllComponents(names)
  {
  }

  lemma {:induction false} SimplifyIdentity(names: seq<string>, absolute: bool, beginning: bool, addSlash: bool)
    requires AllNames(names)
    ensures
      SimplifyFrom(Joined(names, ""), absolute, beginning, addSlash)
      == (if addSlash && names != [] then "/" else "") + Joined(names, "")
    decreases |names|
  {
    hide FindFirstComponent, IsName, SimplifyFrom, Joined;
    var p := Joined(names, "");
    if names == [] {
      SimplifyNothing(absolute, beginning, addSlash);
    } else {
      FirstName(names);
      SimplifyIdentity(names[1..], absolute, false, true);
      SimplifyOne(p, names[0], Joined(names[1..], ""), absolute, beginning, addSlash);
      assert [names[0]] + names[1..] == names && AllComponents(names[1..]) by { NamesAreComponents(names[1..]); }
      JoinedHead(names[0], names[1..], "");
      JoinedSkipped(names[1..], "");
      SimplifyNothing(absolute, beginning, addSlash);
      var slash, tail := if addSlash then "/" else "", SimplifyFrom(Joined(names[1..], ""), absolute, false, true);
      assert slash + names[0] + tail == slash + (names[0] + tail);
    }
  }

  lemma {:induction false} ValidExactly(names: seq<string>, total: nat)
    requires AllNames(names) && |Joined(names, "")| <= total
    ensures IsValidFrom(total, Joined(names, ""), true) <==> total < PATH_MAX
    decreases |names|
  {
    if names != [] {
      hide FindFirstComponent, IsName;
      FirstName(names);
      ValidExactly(names[1..], total);
    }
  }

  lemma RenderIsSimple(absolute: bool, names: seq<string>)
    requires AllNames(names) && names != []
    ensures var s := Render(absolute, names);
            PathSimplify(s) == s && (PathIsValidFull(s, true) <==> |s| < PATH_MAX)
  {
    var s, body := Render(absolute, names), Joined(names, "");
    JoinedSkipped(names, "");
    hide FindFirstComponent, IsName;
    SimplifyIdentity(names, absolute, true, false);
    FirstName(names);
    ValidExactly(names[1..], |s|);
    if absolute {
      assert s[1..] == body;
      LexSkips(body, true);
    } else {
      assert s == body;
    }
  }

  lemma BackwardAtEnd(pre: string, x: string, path: string)
    requires IsName(x) && pre + x <= path
    requires pre == "" || pre[|pre| - 1] == '/'
    ensures SkipBackward(path, |pre| + |x| - 1) == |pre| + |x| - 1
    ensures BackToSlash(path, |pre| + |x| - 1) == |pre| - 1
  {
    var q := |pre| + |x| - 1;
    assert path[q] == (pre + x)[q] == x[|x| - 1];
    assert |x| >= 2 ==> path[q - 1] == (pre + x)[q - 1] == x[|x| - 2];
    assert |x| == 1 ==> x[0] != '.';
    BackOverName(pre, x, path, q);
  }

  lemma BackOverName(pre: string, x: string, path: string, q: int)
    requires '/' !in x && pre + x <= path
    requires pre == "" || pre[|pre| - 1] == '/'
    requires |pre| - 1 <= q < |pre| + |x|
    ensures BackToSlash(path, q) == |pre| - 1
    decreases q
  {
    assert q >= 0 ==> path[q] == (pre + x)[q];
    if q >= |pre| {
      assert path[q] == x[q - |pre|];
      BackOverName(pre, x, path, q - 1);
    }
  }

  /** A rendered path with one more component, seen as what precedes that component and the component. */
  lemma RenderEnds(absolute: bool, names: seq<string>, x: string) returns (pre: string)
    requires AllNames(names) && IsName(x)
    ensures Render(absolute, names + [x]) == pre + x
    ensures pre == if names == [] then (if absolute then "/" else "") else Render(absolute, names) + "/"
  {
    RenderSnoc(absolute, names, x);
    if names == [] {
      pre := if absolute then "/" else "";
      assert Render(absolute, names) == pre;
    } else {
      pre := Render(absolute, names) + "/";
      RenderLast(absolute, names);
    }
  }

  /** Where the scan backwards from the slash before the last component stops. */
  lemma BackwardOverSlash(absolute: bool, names: seq<string>, path: string, slash: int)
    requires AllNames(names)
    requires if names == [] then slash == (if absolute then 0 else -1) else slash == |Render(absolute, names)|
    requires slash < |path| && (slash >= 0 ==> path[slash] == '/')
    requires names != [] ==> path[..slash] == Render(absolute, names)
    ensures SkipBackward(path, slash) == if names == [] then -1 else slash - 1
  {
    if names == [] {
    } else {
      var k := |names| - 1;
      assert names[..k] + [names[k]] == names;
      var pre := RenderEnds(absolute, names[..k], names[k]);
      assert pre + names[k] <= path;
      BackwardAtEnd(pre, names[k], path);
    }
  }

  lemma ExtractLastOfRender(absolute: bool, names: seq<string>, x: string, pre: string)
    requires AllNames(names) && IsName(x)
    requires pre == if names == [] then (if absolute then "/" else "") else Render(absolute, names) + "/"
    ensures ExtractLast(pre + x, |pre + x| - 1, |pre| - 1) ==
            if names == [] then (if absolute then InDirectory("/") else NoDirectory)
            else if |Render(absolute, names)| < PATH_MAX then InDirectory(Render(absolute, names))
            else InvalidPath
  {
    hide PathSimplify, PathIsValidFull, Render;
    var path, slash := pre + x, |pre| - 1;
    assert path[slash + 1..|path|] == x;
    assert pre != "" ==> path[slash] == pre[slash] == '/';
    if names == [] {
      BackwardOverSlash(absolute, names, path, slash);
      assert pre == "" ==> path[0] == x[0];
    } else {
      assert path[..slash] == Render(absolute, names);
      BackwardOverSlash(absolute, names, path, slash);
      RenderLast(absolute, names);
      RenderIsSimple(absolute, names);
    }
  }

  /** `path_extract_directory` undoes one `path_extend`, except for a parent of PATH_MAX bytes or more. */
  lemma ExtractDirectoryOfRender(absolute: bool, names: seq<string>, x: string)
    requires AllNames(names) && IsName(x)
    ensures PathExtractDirectory(Render(absolute, names + [x])) ==
            if names == [] then (if absolute then InDirectory("/") else NoDirectory)
            else if |Render(absolute, names)| < PATH_MAX then InDirectory(Render(absolute, names))
            else InvalidPath
  {
    hide ExtractLast, Render;
    var path := Render(absolute, names + [x]);
    var pre := RenderEnds(absolute, names, x);
    BackwardAtEnd(pre, x, path);
    assert |path| == 1 ==> path == x;
    ExtractLastOfRender(absolute, names, x, pre);
  }
}
