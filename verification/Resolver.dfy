/**
 Pathname resolution by recursion on symlinks, in the manner of section 4.13 of POSIX.1-2017 (XBD),
 with ".." clamped at the base directory, and the proof that the splicing loop of `chaseat()` computes it.

 Where the code differs from the standard, resolution here follows the code; `ChasePosix` says where that is. Paths are
 strings here, because a missing name is returned with the rest of the path as it is spelled.
 */
module Resolver {
  import opened Wrappers
  import opened PathUtil
  import opened FileSystem
  import opened Chase
  import opened ChaseRuns

  /** Where resolution stands: an inode, and the names that lead to it from the base. */
  datatype Place = Place(ino: Ino, names: seq<string>)

  /**
   `guarded` adds what the assertions of `chaseat()` do: resolution crashes when it goes up from a place whose
   parent has a path of PATH_MAX bytes or more.
   */
  datatype View = View(fs: Fs, base: Ino, guarded: bool)

  function Start(v: View): Place { Place(v.base, []) }

  datatype Resolution =
    | Found(at: Place, links: nat)                     // `links` symlinks were followed on the way
    | TooMany                                          // one more symlink than the limit
    | Missing(at: Place, name: string, rest: string)   // `name` is not in the directory `at`; `rest` comes after
    | Crashed
    | Broken(errno: Errno)

  /** One component, looked up in a place. */
  datatype Lookup =
    | Fails(errno: Errno)
    | Absent
    | Crashes
    | Leads(to: Place)
    | Points(target: string)   // a symlink that is to be followed

  function LookUp(v: View, cur: Place, name: string, follow: bool): Lookup
  {
    if !IsDir(v.fs, cur.ino) then Fails(ENOTDIR)
    else if name == ".." then
      if cur.ino == v.base then Leads(cur)
      else if v.guarded && OverlongParent(v.base == v.fs.root, cur.names) then Crashes
      else Leads(Place(Parent(v.fs, cur.ino), if cur.names == [] then [] else cur.names[..|cur.names| - 1]))
    else
      match Child(v.fs, cur.ino, name)
      case None => Absent
      case Some(child) =>
        if IsSymlink(v.fs, child) && follow then Points(Node(v.fs, child).kind.target)
        else Leads(Place(child, cur.names + [name]))
  }

  /** Resolves a symlink on its own, by a recursive call, and then goes on with the rest of the path. */
  function Resolve(v: View, nofollow: bool, cur: Place, path: string, limit: nat): (r: Resolution)
    ensures r.Found? ==> r.links <= limit
    decreases limit, |path|
  {
    match FindFirstComponent(path, true)
    case NoComponent => Found(cur, 0)
    case BadComponent => Broken(EINVAL)
    case Component(_, name, rest) =>
      match LookUp(v, cur, name, !(nofollow && rest == ""))
      case Fails(e) => Broken(e)
      case Absent => Missing(cur, name, rest)
      case Crashes => Crashed
      case Leads(to) => Resolve(v, nofollow, to, rest, limit)
      case Points(target) =>
        if limit == 0 then TooMany
        else if target == "" then Broken(EINVAL)
        else
          match Resolve(v, false, if target[0] == '/' then Start(v) else cur, target, limit - 1)
          case Found(mid, n) => AddLinks(1 + n, Resolve(v, nofollow, mid, rest, limit - 1 - n))
          case Missing(at, missing, left) => Missing(at, missing, PathExtend(left, rest))
          case failure => failure
  }

  function AddLinks(n: nat, r: Resolution): Resolution
  {
    if r.Found? then Found(r.at, n + r.links) else r
  }

  /** One unfolding of `Resolve`. */
  lemma Unfold(v: View, nofollow: bool, cur: Place, path: string, limit: nat)
    ensures Resolve(v, nofollow, cur, path, limit) ==
      match FindFirstComponent(path, true)
      case NoComponent => Found(cur, 0)
      case BadComponent => Broken(EINVAL)
      case Component(_, name, rest) =>
        match LookUp(v, cur, name, !(nofollow && rest == ""))
        case Fails(e) => Broken(e)
        case Absent => Missing(cur, name, rest)
        case Crashes => Crashed
        case Leads(to) => Resolve(v, nofollow, to, rest, limit)
        case Points(target) =>
          if limit == 0 then TooMany
          else if target == "" then Broken(EINVAL)
          else
            Sequence(v, nofollow,
              AddLinks(1, Resolve(v, false, if target[0] == '/' then Start(v) else cur, target, limit - 1)),
              rest, limit)
  {
    hide FindFirstComponent, LookUp, PathExtend;
  }

  /** First `first`, then `b`. */
  function Sequence(v: View, nofollow: bool, first: Resolution, b: string, limit: nat): Resolution
    requires first.Found? ==> first.links <= limit
  {
    match first
    case Found(mid, n) => AddLinks(n, Resolve(v, nofollow, mid, b, limit - n))
    case Missing(at, name, left) => Missing(at, name, PathExtend(left, b))
    case failure => failure
  }

  lemma SequenceShift(v: View, nofollow: bool, first: Resolution, b: string, limit: nat, n: nat)
    requires first.Found? ==> first.links <= limit
    ensures AddLinks(n, Sequence(v, nofollow, first, b, limit))
         == Sequence(v, nofollow, AddLinks(n, first), b, limit + n)
  {
    hide Resolve, PathExtend;
  }

  lemma SequenceAfter(v: View, nofollow: bool, at: Place, name: string, left: string, a: string, b: string, limit: nat)
    requires Skipped(a) && Skipped(b)
    ensures Sequence(v, nofollow, Missing(at, name, PathExtend(left, a)), b, limit)
         == Missing(at, name, PathExtend(left, PathExtend(a, b)))
  {
    ExtendAssoc(left, a, b);
    hide PathExtend;
  }

  /** Resolution of a concatenation: this is what makes splicing a symlink's target into the path sound. */
  lemma {:induction false} ResolveConcat(v: View, nofollow: bool, cur: Place, a: string, b: string, limit: nat)
    requires Skipped(b) && (b != "" || !nofollow)
    ensures Resolve(v, nofollow, cur, PathExtend(a, b), limit)
         == Sequence(v, nofollow, Resolve(v, false, cur, a, limit), b, limit)
    decreases limit, |a|
  {
    hide Resolve, LookUp, FindFirstComponent, PathExtend, Skipped;
    LexExtend(a, b);
    Unfold(v, nofollow, cur, PathExtend(a, b), limit);
    Unfold(v, false, cur, a, limit);
    match FindFirstComponent(a, true)
    case NoComponent => Unfold(v, nofollow, cur, b, limit);
    case BadComponent =>
    case Component(_, name, rest) =>
      RestSkipped(a);
      NothingBehind(rest, b);
      match LookUp(v, cur, name, true)
      case Leads(to) => ResolveConcat(v, nofollow, to, rest, b, limit);
      case Points(target) =>
        if limit != 0 && target != "" {
          var inner := Resolve(v, false, if target[0] == '/' then Start(v) else cur, target, limit - 1);
          if inner.Found? {
            var left := limit - 1 - inner.links;
            ResolveConcat(v, nofollow, inner.at, rest, b, left);
            SequenceShift(v, nofollow, Resolve(v, false, inner.at, rest, left), b, left, 1 + inner.links);
          } else if inner.Missing? {
            SequenceAfter(v, nofollow, inner.at, inner.name, inner.rest, rest, b, limit);
          }
        }
      case _ =>
  }

  lemma NothingBehind(a: string, b: string)
    ensures PathExtend(a, b) == "" <==> a == "" && b == ""
  {
  }

  // ---------- the limit ----------

  /** A larger limit changes nothing but TooMany, and the limit needed is the number of links followed. */
  lemma {:induction false} LimitOnlyCuts(v: View, nofollow: bool, cur: Place, path: string, limit: nat, limit': nat)
    requires var r := Resolve(v, nofollow, cur, path, limit);
      !r.TooMany? && (if r.Found? then r.links <= limit' else limit <= limit')
    ensures Resolve(v, nofollow, cur, path, limit') == Resolve(v, nofollow, cur, path, limit)
    decreases limit, |path|
  {
    hide Resolve, LookUp, FindFirstComponent, PathExtend;
    Unfold(v, nofollow, cur, path, limit);
    Unfold(v, nofollow, cur, path, limit');
    var l := FindFirstComponent(path, true);
    if l.Component? {
      match LookUp(v, cur, l.name, !(nofollow && l.rest == ""))
      case Leads(to) => LimitOnlyCuts(v, nofollow, to, l.rest, limit, limit');
      case Points(target) =>
        if target != "" {
          var start := if target[0] == '/' then Start(v) else cur;
          var inner := Resolve(v, false, start, target, limit - 1);
          LimitOnlyCuts(v, false, start, target, limit - 1, limit' - 1);
          if inner.Found? {
            LimitOnlyCuts(v, nofollow, inner.at, l.rest, limit - 1 - inner.links, limit' - 1 - inner.links);
          }
        }
      case _ =>
    }
  }

  /** Without a limit: this is what every large enough limit gives. */
  ghost predicate Ends(v: View, nofollow: bool, path: string, r: Resolution)
  {
    r != TooMany && exists limit: nat :: Resolve(v, nofollow, Start(v), path, limit) == r
  }

  ghost predicate Reaches(v: View, nofollow: bool, path: string, at: Place, links: nat)
  {
    Ends(v, nofollow, path, Found(at, links))
  }

  /** Cutting at `limit` keeps exactly the resolutions that need no more than `limit` links. */
  lemma LimitExact(v: View, nofollow: bool, path: string, at: Place, links: nat, limit: nat)
    requires Reaches(v, nofollow, path, at, links)
    ensures Resolve(v, nofollow, Start(v), path, limit) == if links <= limit then Found(at, links) else TooMany
  {
    hide Resolve;
    var big: nat :| Resolve(v, nofollow, Start(v), path, big) == Found(at, links);
    if links <= limit {
      LimitOnlyCuts(v, nofollow, Start(v), path, big, limit);
    } else if Resolve(v, nofollow, Start(v), path, limit) != TooMany {
      LimitOnlyCuts(v, nofollow, Start(v), path, limit, big);
    }
  }

  // ---------- the guard ----------

  /** Unless it crashes, guarded resolution is plain resolution; and that never crashes. */
  lemma {:induction false} GuardOnlyCrashes(v: View, nofollow: bool, cur: Place, path: string, limit: nat)
    requires !v.guarded
    ensures var g := Resolve(v.(guarded := true), nofollow, cur, path, limit);
      g == Crashed || g == Resolve(v, nofollow, cur, path, limit)
    ensures Resolve(v, nofollow, cur, path, limit) != Crashed
    decreases limit, |path|
  {
    hide LookUp, FindFirstComponent, Resolve, PathExtend;
    var g := v.(guarded := true);
    Unfold(v, nofollow, cur, path, limit);
    Unfold(g, nofollow, cur, path, limit);
    var l := FindFirstComponent(path, true);
    if l.Component? {
      var follow := !(nofollow && l.rest == "");
      GuardedLookUp(v, cur, l.name, follow);
      match LookUp(v, cur, l.name, follow)
      case Leads(to) => GuardOnlyCrashes(v, nofollow, to, l.rest, limit);
      case Points(target) =>
        if limit != 0 && target != "" {
          var start := if target[0] == '/' then Start(v) else cur;
          GuardOnlyCrashes(v, false, start, target, limit - 1);
          var inner := Resolve(v, false, start, target, limit - 1);
          if inner.Found? { GuardOnlyCrashes(v, nofollow, inner.at, l.rest, limit - 1 - inner.links); }
        }
      case _ =>
    }
  }

  lemma GuardedLookUp(v: View, cur: Place, name: string, follow: bool)
    requires !v.guarded
    ensures var g := LookUp(v.(guarded := true), cur, name, follow);
      (g == Crashes || g == LookUp(v, cur, name, follow)) && LookUp(v, cur, name, follow) != Crashes
  {
  }

  // ---------- the loop agrees ----------

  function Guarded(c: Config): View { View(c.fs, c.base, true) }

  function Plainly(c: Config): View { View(c.fs, c.base, false) }

  function Here(s: State): Place { Place(s.fd, s.done) }

  function Reference(c: Config, s: State): Resolution
    requires s.follow >= 1
  {
    Resolve(Guarded(c), c.flags.nofollow, Here(s), s.todo, s.follow - 1)
  }

  /** What `chaseat()` makes of a missing name: with CHASE_NONEXISTENT it wants the rest to be safe. */
  function MissingOutcome(c: Config, at: Place, name: string, rest: string): Outcome
  {
    if c.flags.nonexistent && (rest == "" || PathIsSafe(rest))
    then Resolved(PathExtend(PathExtend(Render(c.Absolute(), at.names), name), rest), at.ino, false)
    else Failed(ENOENT)
  }

  predicate SameVerdict(c: Config, r: Resolution, o: Outcome)
  {
    match r
    case Found(at, _) => o == Resolved(DonePath(c, at.names), at.ino, true)
    case TooMany => o == Failed(ELOOP)
    case Crashed => o == Aborted
    case Missing(at, name, rest) => o == MissingOutcome(c, at, name, rest)
    case Broken(e) => o == Failed(e)
  }

  /** Whether a missing name is an error is decided by what comes after it. */
  lemma MissingDecided(c: Config, at: Place, name: string, rest: string)
    requires AllComponents(at.names) && IsComponent(name)
    ensures var o := MissingOutcome(c, at, name, rest);
      && (o == Failed(ENOENT) || (o.Resolved? && !o.present && o.fd == at.ino))
      && (o.Resolved? <==> c.flags.nonexistent && (rest == "" || (|rest| < PATH_MAX && AllSafe(Components(rest)))))
      && (o.Resolved? ==> Components(o.path) == at.names + [name] + Components(rest))
  {
    hide Components, PathIsSafe, Render, PathExtend;
    SafeExactly(rest);
    RenderMeaning(c.Absolute(), at.names);
    ComponentsSingle(name);
    ExtendMeaning(Render(c.Absolute(), at.names), name);
    ExtendMeaning(PathExtend(Render(c.Absolute(), at.names), name), rest);
  }

  ghost predicate SameUpToLinks(r: Resolution, r': Resolution)
  {
    r == r' || (r.Found? && r'.Found? && r.at == r'.at)
  }

  /** One turn of the loop, against what resolution of the state gives. */
  ghost predicate Matches(c: Config, s: State, m: Move, r: Resolution)
  {
    match m
    case Descend(s') => s'.follow >= 1 && r == Reference(c, s')
    case Rewrite(s') => s'.follow >= 1 && SameUpToLinks(r, Reference(c, s'))
    case AssertFires => r == Crashed
    case Finish(path, present) =>
      if present then r == Found(Here(s), 0) && path == DonePath(c, s.done)
      else r.Missing? && Resolved(path, s.fd, false) == MissingOutcome(c, r.at, r.name, r.rest)
    case Refuse(e) =>
      if e == ELOOP then r == TooMany
      else if e == ENOENT then r.Missing? && Failed(ENOENT) == MissingOutcome(c, r.at, r.name, r.rest)
      else r == Broken(e)
  }

  lemma DotDotAgrees(c: Config, s: State, from: string, rest: string)
    requires Inv(c, s) && c.Plain() && FindFirstComponent(s.todo, true) == Component(from, "..", rest)
    ensures Matches(c, s, DotDot(c, s.(todo := rest)), Reference(c, s))
  {
    hide FindFirstComponent, Resolve, Render, Vetted, Walk, LookUp, MissingOutcome;
    AtTop(c, s);
    if s.done != [] && IsDir(c.fs, s.fd) {
      UpIsParent(c, s);
    }
    LookUpDotDot(Guarded(c), Here(s), !(c.flags.nofollow && rest == ""));
    Unfold(Guarded(c), c.flags.nofollow, Here(s), s.todo, s.follow - 1);
  }

  lemma LookUpDotDot(v: View, cur: Place, follow: bool)
    ensures LookUp(v, cur, "..", follow) ==
      if !IsDir(v.fs, cur.ino) then Fails(ENOTDIR)
      else if cur.ino == v.base then Leads(cur)
      else if v.guarded && OverlongParent(v.base == v.fs.root, cur.names) then Crashes
      else Leads(Place(Parent(v.fs, cur.ino), if cur.names == [] then [] else cur.names[..|cur.names| - 1]))
  {
  }

  lemma AtTop(c: Config, s: State)
    requires Inv(c, s)
    ensures s.done == [] ==> s.fd == c.base && IsDir(c.fs, s.fd)
    ensures s.fd == c.fs.root ==> IsDir(c.fs, s.fd) && Parent(c.fs, s.fd) == s.fd
    ensures s.follow >= 1
  {
  }

  lemma EnterAgrees(c: Config, s: State, from: string, first: string, rest: string)
    requires Inv(c, s) && c.Plain()
    requires FindFirstComponent(s.todo, true) == Component(from, first, rest) && first != ".."
    ensures Matches(c, s, Enter(c, s, first, rest), Reference(c, s))
  {
    hide FindFirstComponent, PathIsSafe, PathExtend, Render, Inv, Resolve;
    AtTop(c, s);
    Unfold(Guarded(c), c.flags.nofollow, Here(s), s.todo, s.follow - 1);
    var child := Child(c.fs, s.fd, first);
    if child.Some? && IsSymlink(c.fs, child.value) && !(c.flags.nofollow && rest == "") {
      FollowAgrees(c, s, child.value, from, first, rest);
    }
  }

  lemma FollowAgrees(c: Config, s: State, link: Ino, from: string, first: string, rest: string)
    requires s.follow >= 1 && c.Plain() && IsDir(c.fs, s.fd)
    requires FindFirstComponent(s.todo, true) == Component(from, first, rest) && first != ".."
    requires Child(c.fs, s.fd, first) == Some(link) && IsSymlink(c.fs, link)
    requires !(c.flags.nofollow && rest == "")
    ensures Matches(c, s, FollowLink(c, s, link, Node(c.fs, link).kind.target, rest), Reference(c, s))
  {
    RestSkipped(s.todo);
    hide FindFirstComponent, PathExtend, LookUp, Resolve, MissingOutcome, Skipped;
    var target := Node(c.fs, link).kind.target;
    var v := Guarded(c);
    LookUpLink(v, Here(s), first, link);
    Unfold(v, c.flags.nofollow, Here(s), s.todo, s.follow - 1);
    if s.follow >= 2 && target != "" {
      var start := if target[0] == '/' then Start(v) else Here(s);
      ResolveConcat(v, c.flags.nofollow, start, target, rest, s.follow - 2);
    }
  }

  lemma LookUpLink(v: View, cur: Place, name: string, link: Ino)
    requires IsDir(v.fs, cur.ino) && Child(v.fs, cur.ino, name) == Some(link) && IsSymlink(v.fs, link)
    requires name != ".."
    ensures LookUp(v, cur, name, true) == Points(Node(v.fs, link).kind.target)
  {
  }

  lemma MoveAgrees(c: Config, s: State)
    requires Inv(c, s) && c.Plain()
    ensures s.follow >= 1 && Matches(c, s, NextMove(c, s), Reference(c, s))
  {
    AtTop(c, s);
    hide FindFirstComponent, DotDot, Enter, Inv, Resolve;
    Unfold(Guarded(c), c.flags.nofollow, Here(s), s.todo, s.follow - 1);
    match FindFirstComponent(s.todo, true)
    case Component(from, first, rest) =>
      if first == ".." { DotDotAgrees(c, s, from, rest); } else { EnterAgrees(c, s, from, first, rest); }
    case _ =>
  }

  lemma VerdictUpToLinks(c: Config, r: Resolution, r': Resolution, o: Outcome)
    requires SameUpToLinks(r, r') && SameVerdict(c, r', o)
    ensures SameVerdict(c, r, o)
  {
  }

  lemma LastVerdict(c: Config, s: State, r: Resolution)
    requires Matches(c, s, NextMove(c, s), r) && !NextMove(c, s).Descend? && !NextMove(c, s).Rewrite?
    ensures SameVerdict(c, r, Run(c, s))
  {
    hide NextMove;
  }

  /** From any loop state, the rest of the loop gives the verdict of the recursive resolver. */
  lemma {:induction false} LoopAgrees(c: Config, s: State)
    requires Inv(c, s) && c.Plain() && !c.flags.step
    ensures s.follow >= 1 && SameVerdict(c, Reference(c, s), Run(c, s))
    decreases s.follow, |s.todo|
  {
    hide NextMove, Inv, Reference, MissingOutcome;
    MoveAgrees(c, s);
    MoveKeepsInv(c, s);
    MoveDecreases(c, s);
    var m := NextMove(c, s);
    if m.Descend? || m.Rewrite? {
      LoopAgrees(c, m.next);
      VerdictUpToLinks(c, Reference(c, s), Reference(c, m.next), Run(c, s));
    } else {
      LastVerdict(c, s, Reference(c, s));
    }
  }

  /**
   The splice-and-restart loop computes recursive pathname resolution: it returns the place that resolution
   reaches if at most 31 symlinks are followed, -ELOOP if a 32nd is met, and otherwise the same error. It aborts
   exactly if guarded resolution crashes; if not, its verdict is that of plain resolution.
   */
  lemma ChaseRefinesResolution(c: Config, path: string)
    requires c.Valid() && c.Plain() && !c.flags.step
    ensures var o := Run(c, Init(c, path));
      var guarded := Resolve(Guarded(c), c.flags.nofollow, Start(Guarded(c)), path, CHASE_MAX - 1);
      var plain := Resolve(Plainly(c), c.flags.nofollow, Start(Plainly(c)), path, CHASE_MAX - 1);
      && SameVerdict(c, guarded, o)
      && (o == Aborted <==> guarded == Crashed)
      && (guarded != Crashed ==> SameVerdict(c, plain, o))
  {
    InitInv(c, path);
    LoopAgrees(c, Init(c, path));
    EmptyResolves(c, path);
    GuardOnlyCrashes(Plainly(c), c.flags.nofollow, Start(Plainly(c)), path, CHASE_MAX - 1);
    hide Run, Resolve;
    NeverAborted(c, Reference(c, Init(c, path)), Run(c, Init(c, path)));
  }

  /** "" and "." resolve alike. */
  lemma EmptyResolves(c: Config, path: string)
    ensures Reference(c, Init(c, path)) == Resolve(Guarded(c), c.flags.nofollow, Start(Guarded(c)), path, CHASE_MAX - 1)
  {
    if path == "" {
      var v := Guarded(c);
      Unfold(v, c.flags.nofollow, Start(v), "", CHASE_MAX - 1);
      Unfold(v, c.flags.nofollow, Start(v), ".", CHASE_MAX - 1);
      LexDot();
      hide FindFirstComponent, Resolve;
    }
  }

  lemma NeverAborted(c: Config, r: Resolution, o: Outcome)
    requires SameVerdict(c, r, o)
    ensures o == Aborted <==> r == Crashed
  {
  }

  /** In terms of resolution without a limit, where nothing lies too deep. */
  lemma ChaseReaches(c: Config, path: string, at: Place, links: nat)
    requires c.Valid() && c.Plain() && !c.flags.step
    requires Reaches(Guarded(c), c.flags.nofollow, path, at, links)
    ensures Run(c, Init(c, path)) ==
      if links <= 31 then Resolved(DonePath(c, at.names), at.ino, true) else Failed(ELOOP)
  {
    hide Run, Resolve;
    ChaseRefinesResolution(c, path);
    LimitExact(Guarded(c), c.flags.nofollow, path, at, links, CHASE_MAX - 1);
  }

  /** And nothing else is ever reached. */
  lemma ChaseReachesOnly(c: Config, path: string)
    requires c.Valid() && c.Plain() && !c.flags.step
    requires Run(c, Init(c, path)).Resolved? && Run(c, Init(c, path)).present
    ensures exists at, links | links <= 31 ::
      && Reaches(Guarded(c), c.flags.nofollow, path, at, links)
      && Reaches(Plainly(c), c.flags.nofollow, path, at, links)
      && Run(c, Init(c, path)) == Resolved(DonePath(c, at.names), at.ino, true)
  {
    ChaseRefinesResolution(c, path);
    var r := Resolve(Guarded(c), c.flags.nofollow, Start(Guarded(c)), path, CHASE_MAX - 1);
    assert r.Found?;
    GuardOnlyCrashes(Plainly(c), c.flags.nofollow, Start(Plainly(c)), path, CHASE_MAX - 1);
    hide Run, Resolve;
    assert Reaches(Guarded(c), c.flags.nofollow, path, r.at, r.links);
    assert Reaches(Plainly(c), c.flags.nofollow, path, r.at, r.links);
  }

  // ---------- flags that refuse ----------

  function WithoutRefusals(c: Config): Config
  {
    c.(flags := c.flags.(safe := false, prohibitSymlinks := false, noAutofs := false))
  }

  lemma RefusalOnlyMove(c: Config, s: State)
    requires NextMove(c, s) !in {Refuse(ENOLINK), Refuse(EREMOTE), Refuse(EREMCHG)}
    ensures NextMove(WithoutRefusals(c), s) == NextMove(c, s)
  {
    hide FindFirstComponent, Render, PathExtend, PathIsSafe;
  }

  /** CHASE_SAFE, CHASE_NO_AUTOFS and CHASE_PROHIBIT_SYMLINKS only ever refuse: what they let through is unchanged. */
  lemma {:induction false} FlagsOnlyRefuse(c: Config, s: State)
    requires Run(c, s) !in {Failed(ENOLINK), Failed(EREMOTE), Failed(EREMCHG)}
    ensures Run(WithoutRefusals(c), s) == Run(c, s)
    decreases s.follow, |s.todo|
  {
    hide NextMove;
    var m := NextMove(c, s);
    RefusalOnlyMove(c, s);
    MoveDecreases(c, s);
    if m.Descend? || (m.Rewrite? && !c.flags.step) {
      FlagsOnlyRefuse(c, m.next);
    }
  }

  predicate Refused(o: Outcome)
  {
    o in {Failed(ENOLINK), Failed(EREMOTE), Failed(EREMCHG)}
  }

  /** The inode that the next component names, if it is looked up and found. */
  function Met(c: Config, s: State): Option<Ino>
  {
    var l := FindFirstComponent(s.todo, true);
    if l.Component? && l.name != ".." && IsDir(c.fs, s.fd) then Child(c.fs, s.fd, l.name) else None
  }

  /** And whether it is a symlink that is to be followed. */
  predicate MeetsLink(c: Config, s: State)
  {
    Met(c, s).Some? && IsSymlink(c.fs, Met(c, s).value) &&
    var l := FindFirstComponent(s.todo, true); l.Component? && !(c.flags.nofollow && l.rest == "")
  }

  /**
   The turn of the plain run at `s` does what a flag forbids: it goes from an unprivileged user's inode to another
   user's, meets an automount point, or meets a link that it would follow.
   */
  predicate Offends(c: Config, s: State)
  {
    var m, met := NextMove(WithoutRefusals(c), s), Met(c, s);
    || (c.flags.safe && met.Some? && UnsafeTransition(c.fs, s.fd, met.value))
    || (c.flags.noAutofs && met.Some? && Node(c.fs, met.value).autofs)
    || (c.flags.prohibitSymlinks && MeetsLink(c, s))
    || (c.flags.safe && MeetsLink(c, s) && m.Rewrite? && Restarts(c, met.value)
        && UnsafeTransition(c.fs, met.value, c.base))
    || (c.flags.safe && !c.flags.step && met.None? && m.Rewrite? && UnsafeTransition(c.fs, s.fd, m.next.fd))
  }

  /** An absolute link restarts at the base. */
  predicate Restarts(c: Config, link: Ino)
  {
    var kind := Node(c.fs, link).kind; kind.Symlink? && kind.target != "" && kind.target[0] == '/'
  }

  /** Going along the plain run from `s`, some turn offends. */
  predicate MeetsOffence(c: Config, s: State)
    decreases s.follow, |s.todo|
  {
    var m := NextMove(WithoutRefusals(c), s);
    MoveDecreases(WithoutRefusals(c), s);
    || Offends(c, s)
    || ((m.Descend? || (m.Rewrite? && !c.flags.step)) && MeetsOffence(c, m.next))
  }

  lemma OffenceIsRefused(c: Config, s: State)
    ensures Offends(c, s) <==> NextMove(c, s) in {Refuse(ENOLINK), Refuse(EREMOTE), Refuse(EREMCHG)}
    ensures NextMove(WithoutRefusals(c), s) !in {Refuse(ENOLINK), Refuse(EREMOTE), Refuse(EREMCHG)}
  {
    hide FindFirstComponent, Render, PathExtend, PathIsSafe;
  }

  /** A call is refused by its flags if and only if the run without them meets an offence. */
  lemma {:induction false} RefusedExactly(c: Config, s: State)
    ensures Refused(Run(c, s)) <==> MeetsOffence(c, s)
    decreases s.follow, |s.todo|
  {
    hide NextMove, Offends;
    OffenceIsRefused(c, s);
    MoveDecreases(WithoutRefusals(c), s);
    if !Offends(c, s) {
      RefusalOnlyMove(c, s);
      var m := NextMove(c, s);
      if m.Descend? || (m.Rewrite? && !c.flags.step) { RefusedExactly(c, m.next); }
    }
  }
}
