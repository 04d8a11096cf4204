/**
 `chaseat()` of src/basic/chase.c as a transition system.

 Two ways of calling it are covered. If `base` is the host's root directory, results are absolute. If
 `base` is another directory, CHASE_AT_RESOLVE_IN_ROOT is in force and results are relative to it.
 In both, absolute symlinks restart at `base`.
 */
module Chase {
  import opened Wrappers
  import opened PathUtil
  import opened FileSystem

  const CHASE_MAX: nat := 32

  /** ENAMETOOLONG is the standard's; `chaseat()` does not return it. */
  datatype Errno = ENOENT | ENOTDIR | ELOOP | EINVAL | ENOLINK | EREMOTE | EREMCHG | ENAMETOOLONG

  datatype Flags = Flags(
    nofollow: bool,
    nonexistent: bool,
    safe: bool,
    step: bool,
    prohibitSymlinks: bool,
    noAutofs: bool)

  datatype Config = Config(fs: Fs, base: Ino, flags: Flags) {
    predicate Absolute() { base == fs.root }

    predicate InRoot() { base != fs.root }

    ghost predicate Valid() { WellFormed(fs) && IsDir(fs, base) }

    /** None of the flags that can refuse a path resolution would otherwise accept. */
    predicate Plain() { !flags.safe && !flags.prohibitSymlinks && !flags.noAutofs }
  }

  /** The loop variables: `done` by its components, the unread string, the open inode, `max_follow`. */
  datatype State = State(done: seq<string>, todo: string, fd: Ino, follow: nat)

  datatype Outcome =
    | Failed(errno: Errno)
    | Aborted                                        // an assertion of the C code fires
    | Resolved(path: string, fd: Ino, present: bool)  // returns `exists` (here `present`), or 1 with CHASE_STEP
    | Stepped(path: string)                          // CHASE_STEP: returns 0

  /** What one turn of the loop does. */
  datatype Move =
    | Refuse(errno: Errno)
    | AssertFires
    | Finish(path: string, present: bool)
    | Descend(next: State)   // a component moved from `todo` to `done`
    | Rewrite(next: State)   // a symlink or a ".." was processed

  predicate UnsafeTransition(fs: Fs, a: Ino, b: Ino)
  {
    if Uid(fs, a) == 0 then false else Uid(fs, a) != Uid(fs, b)
  }

  /** `done`, or "." when it is NULL. */
  function DonePath(c: Config, done: seq<string>): string
  {
    if done == [] && !c.Absolute() then "." else Render(c.Absolute(), done)
  }

  /** The parent of `done` is refused by `path_extract_directory()`, because its path is too long. */
  predicate OverlongParent(absolute: bool, done: seq<string>)
  {
    |done| >= 2 && |Render(absolute, done[..|done| - 1])| >= PATH_MAX
  }

  function DotDot(c: Config, s: State): Move
  {
    if s.done == [] && c.InRoot() then Rewrite(s)
    else if !IsDir(c.fs, s.fd) then Refuse(ENOTDIR)
    else
      var up := Parent(c.fs, s.fd);
      if up == s.fd && s.fd == c.fs.root then Rewrite(s)
      else if s.done == [] then AssertFires
      else
        var parent := s.done[..|s.done| - 1];
        if OverlongParent(c.Absolute(), s.done) then AssertFires
        else if c.flags.safe && !c.flags.step && UnsafeTransition(c.fs, s.fd, up) then Refuse(ENOLINK)
        else Rewrite(s.(done := parent, fd := up))
  }

  function FollowLink(c: Config, s: State, link: Ino, target: string, rest: string): Move
  {
    if c.flags.prohibitSymlinks then Refuse(EREMCHG)
    else if s.follow <= 1 then Refuse(ELOOP)
    else if target == "" then Refuse(EINVAL)
    else if target[0] == '/' then
      if c.flags.safe && UnsafeTransition(c.fs, link, c.base) then Refuse(ENOLINK)
      else Rewrite(State([], PathExtend(target, rest), c.base, s.follow - 1))
    else Rewrite(s.(todo := PathExtend(target, rest), follow := s.follow - 1))
  }

  function Enter(c: Config, s: State, first: string, rest: string): Move
  {
    if !IsDir(c.fs, s.fd) then Refuse(ENOTDIR)
    else
      match Child(c.fs, s.fd, first)
      case None =>
        if (rest != "" && !PathIsSafe(rest)) || !c.flags.nonexistent then Refuse(ENOENT)
        else Finish(PathExtend(PathExtend(Render(c.Absolute(), s.done), first), rest), false)
      case Some(child) =>
        if c.flags.safe && UnsafeTransition(c.fs, s.fd, child) then Refuse(ENOLINK)
        else if c.flags.noAutofs && Node(c.fs, child).autofs then Refuse(EREMOTE)
        else if IsSymlink(c.fs, child) && !(c.flags.nofollow && rest == "") then
          FollowLink(c, s, child, Node(c.fs, child).kind.target, rest)
        else Descend(s.(done := s.done + [first], todo := rest, fd := child))
  }

  function NextMove(c: Config, s: State): (m: Move)
  {
    match FindFirstComponent(s.todo, true)
    case BadComponent => Refuse(EINVAL)
    case NoComponent => Finish(DonePath(c, s.done), true)
    case Component(_, first, rest) =>
      if first == ".." then DotDot(c, s.(todo := rest)) else Enter(c, s, first, rest)
  }

  lemma MoveDecreases(c: Config, s: State)
    ensures var m := NextMove(c, s);
            m.Descend? || m.Rewrite? ==>
              m.next.follow < s.follow || (m.next.follow == s.follow && |m.next.todo| < |s.todo|)
  {
  }

  /** The label `chased_one`. */
  function ChasedOne(c: Config, s: State): Outcome
  {
    match FindFirstComponent(s.todo, true)
    case BadComponent => Failed(EINVAL)
    case NoComponent => Stepped(DonePath(c, s.done))
    case Component(from, _, _) => Stepped(PathExtend(DonePath(c, s.done), from))
  }

  function Run(c: Config, s: State): Outcome
    decreases s.follow, |s.todo|
  {
    MoveDecreases(c, s);
    match NextMove(c, s)
    case Refuse(e) => Failed(e)
    case AssertFires => Aborted
    case Finish(path, present) => Resolved(path, s.fd, present)
    case Descend(s') => Run(c, s')
    case Rewrite(s') => if c.flags.step then ChasedOne(c, s') else Run(c, s')
  }

  function Init(c: Config, path: string): State
  {
    State([], if path == "" then "." else path, c.base, CHASE_MAX)
  }

  // ---------- what every loop state satisfies ----------

  /** `names` was walked one lookup at a time, and each lookup passed the checks the flags ask for. */
  ghost predicate Vetted(c: Config, names: seq<string>)
  {
    names == [] ||
    var k := |names| - 1;
    && Vetted(c, names[..k])
    && IsName(names[k])
    && Walk(c.fs, c.base, names).Some?
    && Walk(c.fs, c.base, names[..k]).Some?
    && var d, i := Walk(c.fs, c.base, names[..k]).value, Walk(c.fs, c.base, names).value;
       && (c.flags.safe ==> !UnsafeTransition(c.fs, d, i))
       && (c.flags.noAutofs ==> !Node(c.fs, i).autofs)
  }

  ghost predicate Inv(c: Config, s: State)
  {
    && c.Valid()
    && Vetted(c, s.done)
    && Walk(c.fs, c.base, s.done) == Some(s.fd)
    && (IsSymlink(c.fs, s.fd) ==> c.flags.nofollow && s.todo == "")
    && 1 <= s.follow
  }

  lemma InitInv(c: Config, path: string)
    requires c.Valid()
    ensures Inv(c, Init(c, path))
  {
  }

  lemma VettedNames(c: Config, names: seq<string>)
    requires Vetted(c, names)
    ensures AllNames(names) && AllComponents(names)
  {
  }

  /** One step up: what `done` loses is what `fd` climbs. */
  lemma UpIsParent(c: Config, s: State)
    requires Inv(c, s) && s.done != [] && IsDir(c.fs, s.fd)
    ensures var parent := s.done[..|s.done| - 1];
            Walk(c.fs, c.base, parent) == Some(Parent(c.fs, s.fd)) && Vetted(c, parent)
    ensures s.fd != c.fs.root && s.fd != c.base
    ensures IsDir(c.fs, Parent(c.fs, s.fd))
  {
    var k := |s.done| - 1;
    var d := Walk(c.fs, c.base, s.done[..k]).value;
    assert EntryOk(c.fs, d, s.done[k]);
    WalkLeaves(c.fs, c.base, s.done);
  }

  lemma DotDotKeepsInv(c: Config, s: State)
    requires Inv(c, s)
    ensures !DotDot(c, s).Descend?
    ensures DotDot(c, s).Rewrite? ==> Inv(c, DotDot(c, s).next) && IsDir(c.fs, DotDot(c, s).next.fd)
  {
    if s.done != [] && IsDir(c.fs, s.fd) { UpIsParent(c, s); }
  }

  lemma EnterKeepsInv(c: Config, s: State, first: string, rest: string)
    requires Inv(c, s) && IsComponent(first) && first != ".." && |first| <= NAME_MAX
    ensures var m := Enter(c, s, first, rest);
            && (m.Descend? ==> Inv(c, m.next))
            && (m.Rewrite? ==> Inv(c, m.next) && IsDir(c.fs, m.next.fd))
  {
    WalkSnoc(c.fs, c.base, s.done, first);
    assert (s.done + [first])[..|s.done|] == s.done;
  }

  /** The loop invariant is preserved by every turn of the loop. */
  lemma MoveKeepsInv(c: Config, s: State)
    requires Inv(c, s)
    ensures var m := NextMove(c, s);
            && (m.Descend? ==> Inv(c, m.next))
            && (m.Rewrite? ==> Inv(c, m.next) && IsDir(c.fs, m.next.fd))
  {
    hide DotDot, Enter, FindFirstComponent;
    FirstComponentMeaning(s.todo, true);
    match FindFirstComponent(s.todo, true)
    case Component(_, first, rest) =>
      if first == ".." {
        DotDotMayShrink(c, s, rest);
        DotDotKeepsInv(c, s.(todo := rest));
      } else {
        EnterKeepsInv(c, s, first, rest);
      }
    case _ =>
  }

  /** A state with something left to read does not stand on a symlink. */
  lemma DotDotMayShrink(c: Config, s: State, rest: string)
    requires Inv(c, s) && FindFirstComponent(s.todo, true).Component?
    ensures Inv(c, s.(todo := rest))
  {
  }
}
