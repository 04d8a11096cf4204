/**
 The loop of `chaseat()` as it is written: path strings in buffers, extended, cut and spliced by the
 helpers of path-util. It computes what the transition system of module Chase defines on components.
 */
module ChaseLoop {
  import opened Wrappers
  import opened PathUtil
  import opened FileSystem
  import opened Chase

  /** A `char *` that may be NULL. */
  datatype Buffer = Null | Str(s: string)

  function OrEmpty(b: Buffer): string { if b.Null? then "" else b.s }

  predicate EmptyOrRoot(b: Buffer)
  {
    b.Null? || b.s == "" || (Components(b.s) == [] && b.s[0] == '/')
  }

  /** How `done` is stored for a component sequence. */
  function Stored(absolute: bool, names: seq<string>): Buffer
  {
    if names == [] && !absolute then Null else Str(Render(absolute, names))
  }

  lemma StoredForm(absolute: bool, names: seq<string>)
    requires AllNames(names)
    ensures EmptyOrRoot(Stored(absolute, names)) <==> names == []
    ensures Stored(absolute, names).Null? <==> names == [] && !absolute
    ensures Stored(absolute, names).Str? ==> Stored(absolute, names).s == Render(absolute, names)
    ensures OrEmpty(Stored(absolute, names)) == Render(absolute, names)
  {
    RenderMeaning(absolute, names);
    assert names == [] ==> Render(absolute, names) == if absolute then "/" else "";
  }

  lemma StoredExtend(absolute: bool, names: seq<string>, first: string)
    requires AllNames(names) && IsComponent(first)
    ensures Str(PathExtend(OrEmpty(Stored(absolute, names)), first)) == Stored(absolute, names + [first])
  {
    StoredForm(absolute, names);
    RenderSnoc(absolute, names, first);
  }

  /** Cutting the last component off `done`; `ok` is false where an assertion of the C code fires. */
  method ChopLast(done: Buffer, needAbsolute: bool, ghost names: seq<string>) returns (ok: bool, parent: Buffer)
    requires AllNames(names) && names != [] && done == Stored(needAbsolute, names)
    ensures ok <==> |names| == 1 || |Render(needAbsolute, names[..|names| - 1])| < PATH_MAX
    ensures ok ==> parent == Stored(needAbsolute, names[..|names| - 1])
  {
    ghost var k := |names| - 1;
    assert names[..k] + [names[k]] == names;
    ExtractDirectoryOfRender(needAbsolute, names[..k], names[k]);
    hide PathExtractDirectory;
    ok, parent := true, Null;
    match PathExtractDirectory(OrEmpty(done))
    case InDirectory(p) =>
      parent := Str(p);
    case NoDirectory =>
      // only a file name
    case NoFilename =>
      assert false;
    case InvalidPath =>
      // both modes require what this branch asserts not to hold
      ok := false;
  }

  /** The local variables of the loop hold the state `s`. */
  ghost predicate Holds(c: Config, s: State, done: Buffer, todo: string, fd: Ino, uid: nat, maxFollow: nat)
  {
    && Inv(c, s)
    && s == State(s.done, todo, fd, maxFollow)
    && done == Stored(c.Absolute(), s.done)
    && uid == Uid(c.fs, fd)
  }

  method Chaseat(c: Config, path: string) returns (o: Outcome)
    requires c.Valid()
    ensures o == Run(c, Init(c, path))
  {
    var done := if c.base == c.fs.root then Str("/") else Null;
    var fd, uid := c.base, Uid(c.fs, c.base);
    var maxFollow := CHASE_MAX;
    var todo := if path == "" then "." else path;

    ghost var s := Init(c, path);
    InitInv(c, path);
    RootStored(c.Absolute());
    hide FindFirstComponent, Inv, Run, Stored, Components, NextMove;
    while true
      invariant Holds(c, s, done, todo, fd, uid, maxFollow)
      invariant Run(c, s) == Run(c, Init(c, path))
      decreases maxFollow, |todo|
    {
      var lexed := FindFirstComponent(todo, true);
      LexEnds(c, s);
      if lexed.BadComponent? {
        return Failed(EINVAL);
      }
      if lexed.NoComponent? {
        DoneForm(c, s);
        return Resolved(if done.Null? then "." else done.s, fd, true);
      }
      var stop;
      if lexed.name == ".." {
        stop, o, done, fd, uid, s := TakeDotDot(c, done, todo, lexed.rest, fd, uid, maxFollow, s);
        todo := lexed.rest;
      } else {
        stop, o, done, todo, fd, uid, maxFollow, s :=
          TakeComponent(c, done, todo, lexed.name, lexed.rest, fd, uid, maxFollow, s);
      }
      if stop {
        return;
      }
    }
  }

  /** A turn of the loop whose component is "..". */
  method TakeDotDot(
    c: Config, done: Buffer, oldTodo: string, todo: string, fd: Ino, uid: nat, maxFollow: nat, ghost s: State)
    returns (stop: bool, o: Outcome, done': Buffer, fd': Ino, uid': nat, ghost s': State)
    requires Holds(c, s, done, oldTodo, fd, uid, maxFollow)
    requires var l := FindFirstComponent(oldTodo, true); l.Component? && l.name == ".." && l.rest == todo
    ensures stop ==> o == Run(c, s)
    ensures !stop ==> Holds(c, s', done', todo, fd', uid', maxFollow) && Run(c, s) == Run(c, s')
  {
    hide FindFirstComponent, Inv, Run, Stored, EmptyOrRoot, AllNames, Render, ChasedOne;
    RunUnfolds(c, s);
    MoveKeepsInv(c, s);
    InvNames(c, s);
    StoredForm(c.Absolute(), s.done);
    var resolveInRoot := c.base != c.fs.root;
    stop, o, done', fd', uid', s' := false, Aborted, done, fd, uid, s.(todo := todo);
    if EmptyOrRoot(done) && resolveInRoot {
      if c.flags.step {
        o := FinishStep(c, done, todo, s.done);
        stop := true;
      }
      return;
    }
    if !IsDir(c.fs, fd) {
      return true, Failed(ENOTDIR), done, fd, uid, s';
    }
    var fdParent := Parent(c.fs, fd);
    if fdParent == fd && fd == c.fs.root {
      if c.flags.step {
        o := FinishStep(c, done, todo, s.done);
        stop := true;
      }
      return;
    }
    NotAtTop(c, s);
    var ok, parent := ChopLast(done, c.base == c.fs.root, s.done);
    if !ok {
      return true, Aborted, done, fd, uid, s';
    }
    done' := parent;
    s' := s'.(done := s.done[..|s.done| - 1], fd := fdParent);
    if c.flags.step {
      o := FinishStep(c, done', todo, s'.done);
      stop := true;
      return;
    }
    if c.flags.safe && uid != 0 && uid != Uid(c.fs, fdParent) {
      return true, Failed(ENOLINK), done, fd, uid, s';
    }
    fd', uid' := fdParent, Uid(c.fs, fdParent);
  }

  /** A turn of the loop whose component is a name. */
  method TakeComponent(
    c: Config, done: Buffer, oldTodo: string, first: string, todo: string, fd: Ino, uid: nat, maxFollow: nat,
    ghost s: State)
    returns (stop: bool, o: Outcome, done': Buffer, todo': string, fd': Ino, uid': nat, maxFollow': nat,
             ghost s': State)
    requires Holds(c, s, done, oldTodo, fd, uid, maxFollow)
    requires var l := FindFirstComponent(oldTodo, true);
             l.Component? && l.name == first && first != ".." && l.rest == todo
    ensures stop ==> o == Run(c, s)
    ensures !stop ==> Holds(c, s', done', todo', fd', uid', maxFollow') && Run(c, s) == Run(c, s')
    ensures !stop ==> maxFollow' < maxFollow || (maxFollow' == maxFollow && |todo'| < |oldTodo|)
  {
    RunUnfolds(c, s);
    MoveKeepsInv(c, s);
    MoveDecreases(c, s);
    InvNames(c, s);
    FirstComponentMeaning(oldTodo, true);
    StoredForm(c.Absolute(), s.done);
    hide FindFirstComponent, Inv, Run, Stored, OrEmpty, AllNames, Render, ChasedOne, PathExtend, PathIsSafe, Components;
    stop, o, done', todo', fd', uid', maxFollow', s' := true, Aborted, done, todo, fd, uid, maxFollow, s;
    if !IsDir(c.fs, fd) {
      o := Failed(ENOTDIR);
      return;
    }
    var lookup := Child(c.fs, fd, first);
    if lookup.None? {
      if todo != "" && !PathIsSafe(todo) {
        o := Failed(ENOENT);
      } else if c.flags.nonexistent {
        o := Resolved(PathExtend(PathExtend(OrEmpty(done), first), todo), fd, false);
      } else {
        o := Failed(ENOENT);
      }
      return;
    }
    var child := lookup.value;
    if c.flags.safe && UnsafeTransition(c.fs, fd, child) {
      o := Failed(ENOLINK);
      return;
    }
    if c.flags.noAutofs && Node(c.fs, child).autofs {
      o := Failed(EREMOTE);
      return;
    }
    if IsSymlink(c.fs, child) && !(c.flags.nofollow && todo == "") {
      stop, o, done', todo', fd', uid', maxFollow', s' :=
        TakeSymlink(c, done, child, todo, fd, uid, maxFollow, s);
      return;
    }
    StoredExtend(c.Absolute(), s.done, first);
    done' := Str(PathExtend(OrEmpty(done), first));
    fd', uid' := child, Uid(c.fs, child);
    s' := s'.(done := s.done + [first], todo := todo, fd := child);
    stop := false;
  }

  /** A turn of the loop that follows the symlink `child`. */
  method TakeSymlink(
    c: Config, done: Buffer, child: Ino, todo: string, fd: Ino, uid: nat, maxFollow: nat, ghost s: State)
    returns (stop: bool, o: Outcome, done': Buffer, todo': string, fd': Ino, uid': nat, maxFollow': nat,
             ghost s': State)
    requires Holds(c, s, done, s.todo, fd, uid, maxFollow) && IsSymlink(c.fs, child)
    requires NextMove(c, s) == FollowLink(c, s, child, Node(c.fs, child).kind.target, todo)
    ensures stop ==> o == Run(c, s)
    ensures !stop ==> Holds(c, s', done', todo', fd', uid', maxFollow') && Run(c, s) == Run(c, s')
    ensures !stop ==> maxFollow' < maxFollow
  {
    RunUnfolds(c, s);
    MoveKeepsInv(c, s);
    InvNames(c, s);
    RootStored(c.Absolute());
    hide NextMove, Inv, Run, Stored, Render, ChasedOne, PathExtend, DonePath;
    stop, o, done', todo', fd', uid', maxFollow', s' := true, Aborted, done, todo, fd, uid, maxFollow, s;
    if c.flags.prohibitSymlinks {
      o := Failed(EREMCHG);
      return;
    }
    maxFollow' := maxFollow - 1;
    if maxFollow' <= 0 {
      o := Failed(ELOOP);
      return;
    }
    var destination := Node(c.fs, child).kind.target;
    if destination == "" {
      o := Failed(EINVAL);
      return;
    }
    ghost var names := s.done;
    if destination[0] == '/' {
      fd', uid' := c.base, Uid(c.fs, c.base);
      if c.flags.safe && UnsafeTransition(c.fs, child, fd') {
        o := Failed(ENOLINK);
        return;
      }
      done', names := if c.base == c.fs.root then Str("/") else Null, [];
    }
    todo' := PathExtend(destination, todo);
    s' := State(names, todo', fd', maxFollow');
    assert NextMove(c, s) == Rewrite(s');
    hide FollowLink;
    if c.flags.step {
      o := FinishStep(c, done', todo', names);
    } else {
      stop := false;
    }
  }

  lemma LexEnds(c: Config, s: State)
    ensures var l := FindFirstComponent(s.todo, true);
      && (l.BadComponent? ==> Run(c, s) == Failed(EINVAL))
      && (l.NoComponent? ==> Run(c, s) == Resolved(DonePath(c, s.done), s.fd, true))
      && (l.Component? ==> |l.rest| < |s.todo|)
  {
    RunUnfolds(c, s);
    hide Run;
  }

  lemma DoneForm(c: Config, s: State)
    ensures DonePath(c, s.done) ==
            if Stored(c.Absolute(), s.done).Null? then "." else Stored(c.Absolute(), s.done).s
  {
  }

  lemma RunUnfolds(c: Config, s: State)
    ensures var m := NextMove(c, s);
      Run(c, s) ==
        if m.Refuse? then Failed(m.errno)
        else if m.AssertFires? then Aborted
        else if m.Finish? then Resolved(m.path, s.fd, m.present)
        else if m.Rewrite? && c.flags.step then ChasedOne(c, m.next)
        else Run(c, m.next)
  {
    hide NextMove, ChasedOne;
  }

  lemma InvNames(c: Config, s: State)
    requires Inv(c, s)
    ensures AllNames(s.done) && s.follow >= 1
    ensures DonePath(c, s.done) == if s.done == [] && !c.Absolute() then "." else Render(c.Absolute(), s.done)
  {
    VettedNames(c, s.done);
  }

  lemma NotAtTop(c: Config, s: State)
    requires Inv(c, s) && IsDir(c.fs, s.fd)
    requires !(s.done == [] && c.InRoot())
    requires !(Parent(c.fs, s.fd) == s.fd && s.fd == c.fs.root)
    ensures s.done != []
  {
  }

  lemma RootStored(absolute: bool)
    ensures Stored(absolute, []) == if absolute then Str("/") else Null
  {
  }

  /** The code after the label `chased_one`. */
  method FinishStep(c: Config, done: Buffer, todo: string, ghost names: seq<string>) returns (o: Outcome)
    requires done == Stored(c.Absolute(), names)
    ensures forall fd, follow :: o == ChasedOne(c, State(names, todo, fd, follow))
  {
    var prefix := if done.Null? then "." else done.s;
    match FindFirstComponent(todo, true)
    case BadComponent => o := Failed(EINVAL);
    case NoComponent => o := Stepped(prefix);
    case Component(from, _, _) => o := Stepped(PathExtend(prefix, from));
  }
}
