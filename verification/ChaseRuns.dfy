/** What holds in every state of every run of the path resolution loop, and of what it returns. */
module ChaseRuns {
  import opened Wrappers
  import opened PathUtil
  import opened FileSystem
  import opened Chase

  /** `tr` lists consecutive loop states of the call on `path`. */
  ghost predicate IsRun(c: Config, path: string, tr: seq<State>)
  {
    && |tr| > 0 && tr[0] == Init(c, path)
    && forall i | 0 <= i < |tr| - 1 :: IsTurn(c, tr[i], tr[i + 1])
  }

  ghost predicate IsTurn(c: Config, s: State, s': State)
  {
    var m := NextMove(c, s);
    (m.Descend? || (m.Rewrite? && !c.flags.step)) && m.next == s'
  }

  lemma {:induction false} RunKeepsInv(c: Config, path: string, tr: seq<State>, i: nat)
    requires c.Valid() && IsRun(c, path, tr) && i < |tr|
    ensures Inv(c, tr[i])
  {
    if i == 0 {
      InitInv(c, path);
    } else {
      RunKeepsInv(c, path, tr, i - 1);
      assert IsTurn(c, tr[i - 1], tr[i]);
      MoveKeepsInv(c, tr[i - 1]);
    }
  }

  /** Every outcome is reached through a run, and its last state is where the outcome is decided. */
  lemma {:induction false} RunExists(c: Config, path: string, pre: seq<State>) returns (tr: seq<State>)
    requires IsRun(c, path, pre)
    ensures IsRun(c, path, tr) && pre <= tr
    ensures var last := tr[|tr| - 1];
            Run(c, pre[|pre| - 1]) ==
              match NextMove(c, last)
              case Refuse(e) => Failed(e)
              case AssertFires => Aborted
              case Finish(p, present) => Resolved(p, last.fd, present)
              case Descend(_) => Aborted
              case Rewrite(s') => ChasedOne(c, s')
    ensures !NextMove(c, tr[|tr| - 1]).Descend?
    ensures NextMove(c, tr[|tr| - 1]).Rewrite? ==> c.flags.step
    decreases pre[|pre| - 1].follow, |pre[|pre| - 1].todo|
  {
    hide NextMove;
    var s := pre[|pre| - 1];
    var m := NextMove(c, s);
    if m.Descend? || (m.Rewrite? && !c.flags.step) {
      MoveDecreases(c, s);
      var longer := pre + [m.next];
      assert forall i | 0 <= i < |longer| - 1 :: IsTurn(c, longer[i], longer[i + 1]);
      tr := RunExists(c, path, longer);
    } else {
      tr := pre;
    }
  }

  // ---------- position and containment ----------

  /**
   In every loop state `done`, walked literally from the base, leads through real directories to `fd`;
   it is empty exactly at the base; and `fd` never leaves the tree below the base.
   */
  lemma LoopPosition(c: Config, path: string, tr: seq<State>, i: nat)
    requires c.Valid() && IsRun(c, path, tr) && i < |tr|
    ensures Walk(c.fs, c.base, tr[i].done) == Some(tr[i].fd)
    ensures forall k | 0 <= k < |tr[i].done| ::
      Walk(c.fs, c.base, tr[i].done[..k]).Some? && IsDir(c.fs, Walk(c.fs, c.base, tr[i].done[..k]).value)
    ensures tr[i].done == [] <==> tr[i].fd == c.base
    ensures tr[i].fd == c.fs.root ==> tr[i].done == []
    ensures Below(c.fs, c.base, tr[i].fd)
  {
    RunKeepsInv(c, path, tr, i);
    var s := tr[i];
    forall k | 0 <= k < |s.done|
      ensures Walk(c.fs, c.base, s.done[..k]).Some? && IsDir(c.fs, Walk(c.fs, c.base, s.done[..k]).value)
    {
      WalkPrefix(c.fs, c.base, s.done, k);
    }
    if s.done != [] { WalkLeaves(c.fs, c.base, s.done); }
  }

  // ---------- CHASE_SAFE ----------

  lemma SafeTurn(c: Config, s: State, s': State)
    requires Inv(c, s) && IsTurn(c, s, s') && c.flags.safe
    ensures Uid(c.fs, s.fd) != 0 ==> Uid(c.fs, s'.fd) == Uid(c.fs, s.fd)
  {
  }

  /** Once a run stands on an inode of an unprivileged user, it stays with that user's inodes. */
  lemma {:induction false} SafeRunsKeepOwner(c: Config, path: string, tr: seq<State>, i: nat, j: nat)
    requires c.Valid() && IsRun(c, path, tr) && i <= j < |tr|
    requires c.flags.safe
    requires Uid(c.fs, tr[i].fd) != 0
    ensures Uid(c.fs, tr[j].fd) == Uid(c.fs, tr[i].fd)
  {
    hide IsTurn, Inv;
    if i < j {
      SafeRunsKeepOwner(c, path, tr, i, j - 1);
      RunKeepsInv(c, path, tr, j - 1);
      assert IsTurn(c, tr[j - 1], tr[j]);
      SafeTurn(c, tr[j - 1], tr[j]);
    }
  }

  /** Every state of a run has the outcome of the whole run ahead of it. */
  lemma {:induction false} RunAlong(c: Config, path: string, tr: seq<State>)
    requires IsRun(c, path, tr)
    ensures Run(c, tr[|tr| - 1]) == Run(c, Init(c, path))
    decreases |tr|
  {
    hide NextMove, ChasedOne;
    var k := |tr| - 1;
    if k > 0 {
      assert IsTurn(c, tr[k - 1], tr[k]);
      RunAlong(c, path, tr[..k]);
    }
  }

  /** The inode that a safe call returns is owned by the non-root user that owned any inode on the way. */
  lemma SafeResultKeepsOwner(c: Config, path: string, tr: seq<State>, i: nat)
    requires c.Valid() && IsRun(c, path, tr) && i < |tr|
    requires c.flags.safe
    requires Uid(c.fs, tr[i].fd) != 0 && Run(c, Init(c, path)).Resolved?
    ensures Uid(c.fs, Run(c, Init(c, path)).fd) == Uid(c.fs, tr[i].fd)
  {
    hide NextMove, Run, IsTurn, FindFirstComponent;
    RunAlong(c, path, tr);
    var all := RunExists(c, path, tr);
    assert all[i] == tr[i];
    SafeRunsKeepOwner(c, path, all, i, |all| - 1);
  }

  // ---------- what a successful call returns ----------

  lemma FinishForm(c: Config, s: State)
    requires Inv(c, s) && NextMove(c, s).Finish?
    ensures var m := NextMove(c, s);
      && (m.present ==> m.path == DonePath(c, s.done) && Components(s.todo) == [])
      && (!m.present ==>
            && c.flags.nonexistent
            && IsDir(c.fs, s.fd)
            && var l := FindFirstComponent(s.todo, true);
               && l.Component? && IsName(l.name) && Child(c.fs, s.fd, l.name) == None
               && (l.rest == "" || PathIsSafe(l.rest)) && Skipped(l.rest)
               && m.path == PathExtend(PathExtend(Render(c.Absolute(), s.done), l.name), l.rest))
  {
    FirstComponentMeaning(s.todo, true);
    RestSkipped(s.todo);
  }

  lemma RestSkipped(p: string)
    ensures var r := FindFirstComponent(p, true);
            r.Component? ==> Skipped(r.rest) && Skipped(r.from) && r.from != ""
                             && FindFirstComponent(r.from, true) == r
  {
    var first := SkipSlashOrDot(p);
    SkipStops(p);
    if first != "" && first != "." {
      SkipStops(first[SlashIndex(first)..]);
    }
  }

  predicate AllSafe(names: seq<string>)
  {
    forall x | x in names :: x != ".." && |x| <= NAME_MAX
  }

  lemma {:induction false} SafeFrom(total: nat, e: string)
    ensures IsValidFrom(total, e, false) <==> total < PATH_MAX && AllSafe(Components(e))
    decreases |e|
  {
    FirstComponentMeaning(e, false);
    hide FindFirstComponent, Components;
    match FindFirstComponent(e, false)
    case Component(_, name, rest) =>
      SafeFrom(total, rest);
      assert forall x :: x in Components(e) <==> x == name || x in Components(rest);
    case BadComponent =>
      assert Components(e)[0] in Components(e);
    case NoComponent =>
  }

  /** `path_is_safe()`, by components: no "..", nothing overlong. */
  lemma SafeExactly(p: string)
    ensures PathIsSafe(p) <==> p != "" && |p| < PATH_MAX && AllSafe(Components(p))
  {
    SafeFrom(|p|, p);
  }

  lemma DonePathMeaning(c: Config, names: seq<string>)
    requires Vetted(c, names)
    ensures Components(DonePath(c, names)) == names
  {
    VettedNames(c, names);
    ComponentsSingle(".");
    RenderMeaning(c.Absolute(), names);
  }

  lemma FinishMeaning(c: Config, s: State)
    requires Inv(c, s) && NextMove(c, s).Finish?
    ensures var m := NextMove(c, s);
      if m.present then Components(m.path) == s.done
      else
        var l := FindFirstComponent(s.todo, true);
        && l.Component? && IsName(l.name) && Child(c.fs, s.fd, l.name) == None
        && Components(m.path) == s.done + [l.name] + Components(l.rest)
        && ".." !in Components(l.rest)
  {
    FinishForm(c, s);
    hide NextMove;
    VettedNames(c, s.done);
    if NextMove(c, s).present {
      DonePathMeaning(c, s.done);
    } else {
      var l := FindFirstComponent(s.todo, true);
      ExtendMeaning(PathExtend(Render(c.Absolute(), s.done), l.name), l.rest);
      ExtendMeaning(Render(c.Absolute(), s.done), l.name);
      RenderMeaning(c.Absolute(), s.done);
      ComponentsSingle(l.name);
      ComponentsSingle("");
      if l.rest != "" { SafeExactly(l.rest); }
    }
  }

  lemma {:induction false} WalkStuck(fs: Fs, base: Ino, done: seq<string>, first: string, more: seq<string>)
    requires Walk(fs, base, done).Some? && Child(fs, Walk(fs, base, done).value, first) == None
    ensures Walk(fs, base, done + [first] + more) == None
    decreases |more|
  {
    if more == [] {
      WalkSnoc(fs, base, done, first);
      assert done + [first] + more == done + [first];
    } else {
      var k := |more| - 1;
      WalkStuck(fs, base, done, first, more[..k]);
      assert (done + [first] + more)[..|done| + 1 + k] == done + [first] + more[..k];
    }
  }

  ghost predicate Canonical(c: Config, names: seq<string>)
  {
    && ".." !in names
    && forall k | 0 <= k < |names| ::
         var w := Walk(c.fs, c.base, names[..k]); w.Some? ==> !IsSymlink(c.fs, w.value)
  }

  lemma DoneIsCanonical(c: Config, s: State)
    requires Inv(c, s)
    ensures Canonical(c, s.done)
  {
    VettedNames(c, s.done);
    forall k | 0 <= k < |s.done|
      ensures var w := Walk(c.fs, c.base, s.done[..k]); w.Some? ==> !IsSymlink(c.fs, w.value)
    {
      WalkPrefix(c.fs, c.base, s.done, k);
    }
  }

  lemma MissingIsCanonical(c: Config, s: State, first: string, rest: seq<string>)
    requires Inv(c, s) && s.todo != "" && Child(c.fs, s.fd, first) == None
    requires IsName(first) && ".." !in rest
    ensures Canonical(c, s.done + [first] + rest)
  {
    DoneIsCanonical(c, s);
    var names := s.done + [first] + rest;
    forall k | 0 <= k < |names|
      ensures var w := Walk(c.fs, c.base, names[..k]); w.Some? ==> !IsSymlink(c.fs, w.value)
    {
      if k < |s.done| {
        assert names[..k] == s.done[..k];
      } else if k == |s.done| {
        assert names[..k] == s.done;
      } else {
        assert names[..k] == s.done + [first] + rest[..k - |s.done| - 1];
        WalkStuck(c.fs, c.base, s.done, first, rest[..k - |s.done| - 1]);
      }
    }
  }

  /** The last state of a run that ends in a resolved path. */
  lemma LastState(c: Config, path: string) returns (s: State)
    requires c.Valid() && Run(c, Init(c, path)).Resolved?
    ensures Inv(c, s) && NextMove(c, s).Finish?
    ensures var m := NextMove(c, s); Run(c, Init(c, path)) == Resolved(m.path, s.fd, m.present)
  {
    hide NextMove, Inv;
    var tr := RunExists(c, path, [Init(c, path)]);
    RunKeepsInv(c, path, tr, |tr| - 1);
    s := tr[|tr| - 1];
  }

  /**
   A resolved path has no ".." in it, no proper prefix of it names a symlink, and it names the returned
   inode, or nothing when the call reports a missing file.
   */
  lemma ResultIsCanonical(c: Config, path: string)
    requires c.Valid() && Run(c, Init(c, path)).Resolved?
    ensures var r := Run(c, Init(c, path));
      && Canonical(c, Components(r.path))
      && Walk(c.fs, c.base, Components(r.path)) == if r.present then Some(r.fd) else None
  {
    var s := LastState(c, path);
    FinishMeaning(c, s);
    FinishForm(c, s);
    hide NextMove, Run, FindFirstComponent;
    if NextMove(c, s).present {
      DoneIsCanonical(c, s);
    } else {
      var l := FindFirstComponent(s.todo, true);
      WalkStuck(c.fs, c.base, s.done, l.name, Components(l.rest));
      TodoLeft(s.todo);
      MissingIsCanonical(c, s, l.name, Components(l.rest));
    }
  }

  lemma TodoLeft(todo: string)
    ensures FindFirstComponent(todo, true).Component? ==> todo != ""
  {
  }

  /** The assertions of `chase()`: an absolute result for the host root, a relative one otherwise. */
  lemma ResultForm(c: Config, path: string)
    requires c.Valid()
    ensures var r := Run(c, Init(c, path));
      r.Resolved? || r.Stepped? ==> r.path != "" && (r.path[0] == '/' <==> c.Absolute())
  {
    hide NextMove, Inv, ChasedOne;
    var tr := RunExists(c, path, [Init(c, path)]);
    RunKeepsInv(c, path, tr, |tr| - 1);
    var s := tr[|tr| - 1];
    if NextMove(c, s).Finish? {
      FinishedForm(c, s);
    } else if NextMove(c, s).Rewrite? {
      MoveKeepsInv(c, s);
      SteppedForm(c, NextMove(c, s).next);
    }
  }

  lemma FinishedForm(c: Config, s: State)
    requires Inv(c, s) && NextMove(c, s).Finish?
    ensures var p := NextMove(c, s).path; p != "" && (p[0] == '/' <==> c.Absolute())
  {
    hide NextMove, FindFirstComponent, Render, DonePath, PathIsSafe, PathExtend, Skipped, Components, Child, Vetted,
      Walk;
    FinishForm(c, s);
    DonePathForm(c, s.done);
    if !NextMove(c, s).present {
      var l := FindFirstComponent(s.todo, true);
      VettedNames(c, s.done);
      RenderSnoc(c.Absolute(), s.done, l.name);
      RenderForm(c.Absolute(), s.done + [l.name]);
      ExtendKeepsHead(Render(c.Absolute(), s.done + [l.name]), l.rest);
    }
  }

  lemma ExtendKeepsHead(x: string, p: string)
    requires x != ""
    ensures PathExtend(x, p) != "" && PathExtend(x, p)[0] == x[0]
  {
  }

  lemma SteppedForm(c: Config, s: State)
    requires Inv(c, s)
    ensures var r := ChasedOne(c, s);
      !r.Resolved? && (r.Stepped? ==> r.path != "" && (r.path[0] == '/' <==> c.Absolute()))
  {
    DonePathForm(c, s.done);
  }

  lemma RenderForm(absolute: bool, names: seq<string>)
    requires names != [] && AllComponents(names)
    ensures var r := Render(absolute, names); r != "" && (r[0] == '/' <==> absolute)
  {
    JoinedSkipped(names, "");
  }

  lemma DonePathForm(c: Config, names: seq<string>)
    requires Vetted(c, names)
    ensures var r := DonePath(c, names); r != "" && (r[0] == '/' <==> c.Absolute())
  {
    VettedNames(c, names);
    if names != [] { RenderForm(c.Absolute(), names); }
  }
}
