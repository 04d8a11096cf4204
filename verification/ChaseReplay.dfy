/**
 Feeding a returned path back in: a resolved path resolves to itself, and repeated single steps
 (CHASE_STEP) trace exactly what the one-shot call does.
 */
module ChaseReplay {
  import opened Wrappers
  import opened PathUtil
  import opened FileSystem
  import opened Chase
  import opened ChaseRuns

  /** `s` with its unread string replaced and a fresh symlink allowance. */
  function Fresh(s: State, todo: string): State
  {
    s.(todo := todo, follow := CHASE_MAX)
  }

  lemma EnterIgnoresTodo(c: Config, s: State, todo: string, first: string, rest: string)
    ensures Enter(c, s, first, rest) == Enter(c, s.(todo := todo), first, rest)
  {
    hide PathExtend, Render, UnsafeTransition, PathIsSafe;
  }

  lemma SameMove(c: Config, s: State, todo: string)
    requires FindFirstComponent(s.todo, true) == FindFirstComponent(todo, true)
    ensures NextMove(c, s) == NextMove(c, s.(todo := todo))
  {
    hide FindFirstComponent, Enter, DotDot, DonePath;
    match FindFirstComponent(s.todo, true)
    case Component(_, first, rest) => EnterIgnoresTodo(c, s, todo, first, rest);
    case _ =>
  }

  /** The loop sees the unread string only through the lexer. */
  lemma SameLexing(c: Config, s: State, todo: string)
    requires FindFirstComponent(s.todo, true) == FindFirstComponent(todo, true)
    ensures Run(c, s) == Run(c, s.(todo := todo))
  {
    SameMove(c, s, todo);
    hide NextMove, ChasedOne, FindFirstComponent;
  }

  /** One component of an already resolved path is entered without further ado. */
  lemma ReplayOne(c: Config, s: State, k: nat, t: string, follow: nat)
    requires Inv(c, s) && k < |s.done| && Skipped(t)
    requires IsSymlink(c.fs, s.fd) ==> c.flags.nofollow && t == ""
    ensures Walk(c.fs, c.base, s.done[..k]).Some? && Walk(c.fs, c.base, s.done[..k + 1]).Some?
    ensures NextMove(c, State(s.done[..k], Joined(s.done[k..], t), Walk(c.fs, c.base, s.done[..k]).value, follow))
         == Descend(State(s.done[..k + 1], Joined(s.done[k + 1..], t),
                          Walk(c.fs, c.base, s.done[..k + 1]).value, follow))
  {
    hide Enter, Vetted, FindFirstComponent, Joined, Walk, AllNames, AllComponents;
    WalkPrefix(c.fs, c.base, s.done, k);
    WalkPrefix(c.fs, c.base, s.done, k + 1);
    VettedNames(c, s.done);
    VettedPrefix(c, s.done, k + 1);
    LexDone(s.done, k, t);
    var from := State(s.done[..k], Joined(s.done[k..], t), Walk(c.fs, c.base, s.done[..k]).value, follow);
    assert s.done[..k] + [s.done[k]] == s.done[..k + 1];
    EnterVetted(c, from, s.done[k], Joined(s.done[k + 1..], t), s, k, t);
  }

  lemma EnterVetted(c: Config, from: State, first: string, rest: string, s: State, k: nat, t: string)
    requires Inv(c, s) && k < |s.done| && first == s.done[k] && rest == Joined(s.done[k + 1..], t)
    requires IsSymlink(c.fs, s.fd) ==> c.flags.nofollow && t == ""
    requires Walk(c.fs, c.base, s.done[..k]) == Some(from.fd)
    requires Walk(c.fs, c.base, s.done[..k + 1]).Some?
    requires Walk(c.fs, c.base, s.done[..k + 1]) == Child(c.fs, from.fd, first)
    requires Vetted(c, s.done[..k + 1])
    ensures Enter(c, from, first, rest) ==
      Descend(from.(done := from.done + [first], todo := rest, fd := Walk(c.fs, c.base, s.done[..k + 1]).value))
  {
    var i := Walk(c.fs, c.base, s.done[..k + 1]).value;
    assert s.done[..k + 1][..k] == s.done[..k];
    if k + 1 < |s.done| {
      WalkPrefix(c.fs, c.base, s.done, k + 1);
    } else {
      assert s.done[..k + 1] == s.done && s.done[k + 1..] == [];
    }
  }

  lemma LexDone(done: seq<string>, k: nat, t: string)
    requires AllNames(done) && k < |done| && Skipped(t)
    ensures var s := Joined(done[k..], t);
            FindFirstComponent(s, true) == Component(s, done[k], Joined(done[k + 1..], t))
    ensures done[k] != ".."
  {
    assert done[k..] == [done[k]] + done[k + 1..];
    LexJoined(done[k], done[k + 1..], t, true);
  }

  lemma {:induction false} VettedPrefix(c: Config, names: seq<string>, k: nat)
    requires Vetted(c, names) && k <= |names|
    ensures Vetted(c, names[..k])
    decreases |names|
  {
    if k < |names| {
      var m := |names| - 1;
      VettedPrefix(c, names[..m], k);
      assert names[..m][..k] == names[..k];
    } else {
      assert names[..k] == names;
    }
  }

  /** Walking an already resolved path again leads back to the state it was resolved in. */
  lemma {:induction false} Replay(c: Config, s: State, k: nat, t: string, follow: nat)
    requires Inv(c, s) && k <= |s.done| && Skipped(t)
    requires IsSymlink(c.fs, s.fd) ==> c.flags.nofollow && t == ""
    ensures Walk(c.fs, c.base, s.done[..k]).Some?
    ensures Run(c, State(s.done[..k], Joined(s.done[k..], t), Walk(c.fs, c.base, s.done[..k]).value, follow))
         == Run(c, State(s.done, t, s.fd, follow))
    decreases |s.done| - k
  {
    hide NextMove, Inv;
    if k < |s.done| {
      ReplayOne(c, s, k, t, follow);
      Replay(c, s, k + 1, t, follow);
    } else {
      assert s.done[..k] == s.done && s.done[k..] == [];
      WalkOfInv(c, s);
    }
  }

  lemma WalkOfInv(c: Config, s: State)
    requires Inv(c, s)
    ensures Walk(c.fs, c.base, s.done) == Some(s.fd)
  {
  }

  /** Calling again on `done` joined with an unread tail is continuing from there. */
  lemma Reenter(c: Config, s: State, t: string)
    requires Inv(c, s) && Skipped(t)
    requires IsSymlink(c.fs, s.fd) ==> c.flags.nofollow && t == ""
    ensures Run(c, Init(c, PathExtend(DonePath(c, s.done), t))) == Run(c, Fresh(s, t))
  {
    var p := PathExtend(DonePath(c, s.done), t);
    var whole := Joined(s.done, t);
    Replay(c, s, 0, t, CHASE_MAX);
    assert s.done[..0] == [] && s.done[0..] == s.done;
    ReenterLexing(c, s.done, t);
    SameLexing(c, Init(c, p), whole);
  }

  lemma ReenterLexing(c: Config, done: seq<string>, t: string)
    requires Vetted(c, done) && Skipped(t)
    ensures var p := PathExtend(DonePath(c, done), t);
            p != "" && FindFirstComponent(p, true) == FindFirstComponent(Joined(done, t), true)
  {
    VettedNames(c, done);
    LexDot();
    if t != "" { ExtendWithSlash(".", t); }
    hide FindFirstComponent, Vetted, AllNames, AllComponents, Skipped;
    if done == [] && !c.Absolute() {
      LexSkips(t, true);
      assert Joined(done, t) == t;
      assert "." + "/" + t == "./" + t;
    } else {
      hide Joined, PathExtend;
      RenderExtend(c.Absolute(), done, t);
      LexSkips(Joined(done, t), true);
      JoinedSkipped(done, t);
      assert c.Absolute() || "" + Joined(done, t) == Joined(done, t);
    }
  }

  // ---------- resolving twice ----------

  /** A resolved path resolves, with the same flags and from the same base, to itself. */
  lemma Idempotent(c: Config, path: string)
    requires c.Valid() && Run(c, Init(c, path)).Resolved?
    ensures var r := Run(c, Init(c, path)); Run(c, Init(c, r.path)) == r
  {
    var s := LastState(c, path);
    hide NextMove, Run, Inv;
    if NextMove(c, s).present {
      ResolvePresentAgain(c, s);
    } else {
      ResolveMissingAgain(c, s);
    }
  }

  lemma ResolvePresentAgain(c: Config, s: State)
    requires Inv(c, s) && NextMove(c, s).Finish? && NextMove(c, s).present
    ensures var m := NextMove(c, s); Run(c, Init(c, m.path)) == Resolved(m.path, s.fd, m.present)
  {
    FinishForm(c, s);
    LexDot();
    FirstComponentMeaning(s.todo, true);
    hide NextMove, Inv, FindFirstComponent, Run, Components;
    SymlinkOnlyLast(c, s);
    Reenter(c, s, "");
    FinishedState(c, s, "");
  }

  lemma ResolveMissingAgain(c: Config, s: State)
    requires Inv(c, s) && NextMove(c, s).Finish? && !NextMove(c, s).present
    ensures var m := NextMove(c, s); Run(c, Init(c, m.path)) == Resolved(m.path, s.fd, m.present)
  {
    FinishForm(c, s);
    hide NextMove, Inv, FindFirstComponent, Joined, Run, PathExtend, Render, Skipped;
    var l := FindFirstComponent(s.todo, true);
    var t := Joined([l.name], l.rest);
    assert [l.name] + [] == [l.name];
    NoNames();
    JoinedSkipped([l.name], l.rest);
    LexJoined(l.name, [], l.rest, true);
    MissingPath(c, s, l.name, l.rest);
    SymlinkOnlyLast(c, s);
    Reenter(c, s, t);
    FinishedState(c, s, t);
  }

  lemma NoNames()
    ensures forall t :: Joined([], t) == t
  {
  }

  lemma SymlinkOnlyLast(c: Config, s: State)
    requires Inv(c, s)
    ensures IsSymlink(c.fs, s.fd) ==> c.flags.nofollow && !IsDir(c.fs, s.fd)
  {
  }

  /** The last turn looks at the unread string only through its first component. */
  lemma FinishedState(c: Config, s: State, t: string)
    requires NextMove(c, s).Finish?
    requires var l, l' := FindFirstComponent(s.todo, true), FindFirstComponent(t, true);
             (l.NoComponent? && l'.NoComponent?) ||
             (l.Component? && l'.Component? && l.name == l'.name && l.rest == l'.rest)
    ensures var m := NextMove(c, s); Run(c, Fresh(s, t)) == Resolved(m.path, s.fd, m.present)
  {
  }

  lemma MissingPath(c: Config, s: State, first: string, rest: string)
    requires Inv(c, s) && IsName(first) && Skipped(rest)
    ensures PathExtend(PathExtend(Render(c.Absolute(), s.done), first), rest)
         == PathExtend(DonePath(c, s.done), Joined([first], rest)) ||
            (s.done == [] && !c.Absolute())
    ensures Run(c, Init(c, PathExtend(PathExtend(Render(c.Absolute(), s.done), first), rest)))
         == Run(c, Init(c, PathExtend(DonePath(c, s.done), Joined([first], rest))))
  {
    VettedNames(c, s.done);
    var p := PathExtend(PathExtend(Render(c.Absolute(), s.done), first), rest);
    var t := Joined([first], rest);
    RenderSnoc(c.Absolute(), s.done, first);
    RenderExtend(c.Absolute(), s.done + [first], rest);
    JoinedSnoc(s.done, first, rest);
    JoinedSkipped([first], rest);
    RenderExtend(c.Absolute(), s.done, t);
    if s.done == [] && !c.Absolute() {
      hide FindFirstComponent;
      assert p == t;
      assert PathExtend(DonePath(c, s.done), t) == "./" + t;
      LexSkips(t, true);
      SameLexing(c, Init(c, t), "./" + t);
    }
  }

  // ---------- step by step ----------

  /** How many symlinks and ".." the one-shot call processes from `s` on. */
  function Rewrites(c: Config, s: State): nat
    decreases s.follow, |s.todo|
  {
    MoveDecreases(c, s);
    match NextMove(c, s)
    case Descend(s') => Rewrites(c, s')
    case Rewrite(s') => 1 + Rewrites(c, s')
    case _ => 0
  }

  /** From `s`, `n` successive CHASE_STEP calls return 0 and hand over a path, and the next gives `out`. */
  ghost predicate StepsTo(c: Config, s: State, n: nat, out: Outcome)
    requires c.flags.step
    decreases n
  {
    if n == 0 then Run(c, s) == out
    else Run(c, s).Stepped? && StepsTo(c, Init(c, Run(c, s).path), n - 1, out)
  }

  function OneShot(c: Config): Config { c.(flags := c.flags.(step := false)) }

  lemma StepFlagUnread(c: Config, s: State)
    requires !NextMove(OneShot(c), s).Refuse?
    ensures NextMove(c, s) == NextMove(OneShot(c), s)
  {
  }

  lemma InvOfOneShot(c: Config, s: State)
    requires Inv(OneShot(c), s)
    ensures Inv(c, s)
  {
    VettedOfOneShot(c, s.done);
  }

  lemma {:induction false} VettedOfOneShot(c: Config, names: seq<string>)
    requires Vetted(OneShot(c), names)
    ensures Vetted(c, names)
  {
    if names != [] { VettedOfOneShot(c, names[..|names| - 1]); }
  }

  /** Apart from running into ELOOP, a turn of the loop does not look at the symlink allowance. */
  lemma AllowanceUnread(c: Config, s: State)
    requires s.follow <= CHASE_MAX && NextMove(c, s) != Refuse(ELOOP)
    ensures match NextMove(c, s)
            case Descend(s') => NextMove(c, Fresh(s, s.todo)) == Descend(Fresh(s', s'.todo))
            case Rewrite(s') => exists f :: NextMove(c, Fresh(s, s.todo)) == Rewrite(s'.(follow := f))
            case m => NextMove(c, Fresh(s, s.todo)) == m
    ensures NextMove(c, s).Descend? ==> NextMove(c, s).next.follow == s.follow
    ensures NextMove(c, s).Rewrite? ==> NextMove(c, s).next.follow <= s.follow
  {
    var s32 := Fresh(s, s.todo);
    match NextMove(c, s)
    case Rewrite(s') =>
      assert NextMove(c, s32) == Rewrite(s'.(follow := if s'.follow == s.follow then CHASE_MAX else CHASE_MAX - 1));
    case _ =>
  }

  /** Resuming from the path a step returned is resuming from the state it stopped in. */
  lemma ResumeStep(c: Config, s: State)
    requires Inv(c, s) && ChasedOne(c, s).Stepped?
    ensures Run(c, Init(c, ChasedOne(c, s).path)) == Run(c, Fresh(s, s.todo))
  {
    var l := FindFirstComponent(s.todo, true);
    RestSkipped(s.todo);
    LexDot();
    hide FindFirstComponent;
    SymlinkOnlyLast(c, s);
    if l.NoComponent? {
      Reenter(c, s, "");
      SameLexing(c, Fresh(s, ""), s.todo);
    } else {
      TodoLeft(s.todo);
      Reenter(c, s, l.from);
      SameLexing(c, Fresh(s, l.from), s.todo);
    }
  }

  lemma {:induction false} StepsFollow(c: Config, s: State)
    requires c.flags.step
    requires Inv(OneShot(c), s) && s.follow <= CHASE_MAX
    requires Run(OneShot(c), s).Resolved?
    ensures StepsTo(c, Fresh(s, s.todo), Rewrites(OneShot(c), s), Run(OneShot(c), s))
    decreases s.follow, |s.todo|
  {
    hide NextMove, Inv, ChasedOne;
    var c0 := OneShot(c);
    var m := NextMove(c0, s);
    MoveKeepsInv(c0, s);
    MoveDecreases(c0, s);
    AllowanceUnread(c0, s);
    StepFlagUnread(c, Fresh(s, s.todo));
    if m.Descend? {
      StepsFollow(c, m.next);
      StepsSame(c, Fresh(s, s.todo), Fresh(m.next, m.next.todo), Rewrites(c0, s), Run(c0, s));
    } else if m.Rewrite? {
      StepsFollow(c, m.next);
      InvOfOneShot(c, m.next);
      ResumesWell(c, m.next);
      ResumeStep(c, m.next);
      ChasedOneSame(c, Fresh(s, s.todo), m.next);
      StepsSame(c, Init(c, ChasedOne(c, m.next).path), Fresh(m.next, m.next.todo), Rewrites(c0, m.next), Run(c0, s));
    }
  }

  lemma StepsSame(c: Config, s1: State, s2: State, n: nat, out: Outcome)
    requires c.flags.step && Run(c, s1) == Run(c, s2) && StepsTo(c, s2, n, out)
    ensures StepsTo(c, s1, n, out)
  {
  }

  lemma ResumesWell(c: Config, s: State)
    requires Run(OneShot(c), s).Resolved?
    ensures ChasedOne(c, s).Stepped?
  {
  }

  lemma ChasedOneSame(c: Config, s: State, s': State)
    requires c.flags.step && exists f :: NextMove(c, s) == Rewrite(s'.(follow := f))
    ensures Run(c, s) == ChasedOne(c, s')
  {
  }

  /**
   If the one-shot call succeeds, repeating CHASE_STEP on each returned path returns 0 once per symlink
   or ".." the one-shot call processes, and then ends with the same path and the same inode.
   */
  lemma StepByStep(c: Config, path: string)
    requires c.Valid() && c.flags.step
    requires Run(OneShot(c), Init(c, path)).Resolved?
    ensures StepsTo(c, Init(c, path), Rewrites(OneShot(c), Init(c, path)), Run(OneShot(c), Init(c, path)))
  {
    InitInv(OneShot(c), path);
    StepsFollow(c, Init(c, path));
  }
}
