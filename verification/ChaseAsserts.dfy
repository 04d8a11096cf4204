/**
 When the assertions behind `path_extract_directory()` in `chaseat()` can fire.

 They are meant to be unreachable. They are not: the parent of `done` is refused as invalid once its
 string is PATH_MAX bytes or longer, and the branch for that answer asserts that the result need not be
 absolute and that CHASE_AT_RESOLVE_IN_ROOT is not set.
 */
module ChaseAsserts {
  import opened Wrappers
  import opened PathUtil
  import opened FileSystem
  import opened Chase
  import opened ChaseReplay
  import opened Resolver

  /** No directory that the flags let through lies so deep that the path of its parent has PATH_MAX bytes. */
  ghost predicate Shallow(c: Config)
  {
    forall names :: !(Vetted(c, names) && TooDeep(c, names))
  }

  ghost predicate TooDeep(c: Config, names: seq<string>)
  {
    && Walk(c.fs, c.base, names).Some?
    && IsDir(c.fs, Walk(c.fs, c.base, names).value)
    && OverlongParent(c.Absolute(), names)
  }

  /** The one way to make an assertion fire in a single turn: ".." in a directory that lies too deep. */
  lemma AssertFiresExactly(c: Config, s: State)
    requires Inv(c, s)
    ensures NextMove(c, s).AssertFires? <==>
      var l := FindFirstComponent(s.todo, true);
      l.Component? && l.name == ".." && TooDeep(c, s.done)
  {
    hide FindFirstComponent, Render;
    if s.done != [] && IsDir(c.fs, s.fd) { UpIsParent(c, s); }
    SingleDone(c, s);
  }

  lemma SingleDone(c: Config, s: State)
    requires Inv(c, s)
    ensures |s.done| == 1 ==> s.done[..0] == []
    ensures s.done == [] && c.Absolute() ==> s.fd == c.fs.root && IsDir(c.fs, s.fd) && Parent(c.fs, s.fd) == s.fd
  {
  }

  lemma {:induction false} ShallowNeverAborts(c: Config, s: State)
    requires Inv(c, s) && Shallow(c)
    ensures !Run(c, s).Aborted?
    decreases s.follow, |s.todo|
  {
    hide NextMove, Inv, TooDeep, FindFirstComponent, Vetted;
    AssertFiresExactly(c, s);
    VettedDone(c, s);
    MoveKeepsInv(c, s);
    MoveDecreases(c, s);
    var m := NextMove(c, s);
    if m.Descend? || (m.Rewrite? && !c.flags.step) {
      ShallowNeverAborts(c, m.next);
    }
  }

  lemma VettedDone(c: Config, s: State)
    requires Inv(c, s)
    ensures Vetted(c, s.done)
  {
  }

  /** Without flags that refuse, every directory is let through. */
  lemma {:induction false} WalkedIsVetted(c: Config, names: seq<string>)
    requires c.Valid() && !c.flags.safe && !c.flags.noAutofs && Walk(c.fs, c.base, names).Some?
    ensures Vetted(c, names)
  {
    if names != [] {
      var k := |names| - 1;
      WalkedIsVetted(c, names[..k]);
      assert EntryOk(c.fs, Walk(c.fs, c.base, names[..k]).value, names[k]);
    }
  }

  /** Going up from a directory that lies too deep makes an assertion fire. */
  lemma DeepAborts(c: Config, names: seq<string>)
    requires c.Valid() && Vetted(c, names) && TooDeep(c, names)
    ensures Run(c, Init(c, PathExtend(DonePath(c, names), ".."))) == Aborted
  {
    var s := State(names, "..", Walk(c.fs, c.base, names).value, CHASE_MAX);
    assert Inv(c, s);
    LexDotDot();
    Reenter(c, s, "..");
    AssertFiresExactly(c, s);
  }

  lemma LexDotDot()
    ensures FindFirstComponent("..", true) == Component("..", "..", "") && Skipped("..")
  {
    JoinedSkipped([".."], "");
    LexJoined("..", [], "", true);
    assert [".."] + [] == [".."];
  }

  /** Some path makes an assertion fire exactly if some directory that the flags let through lies too deep. */
  lemma AssertsReachableExactly(c: Config)
    requires c.Valid()
    ensures (exists path :: Run(c, Init(c, path)).Aborted?) <==> !Shallow(c)
    ensures !c.flags.safe && !c.flags.noAutofs ==> (Shallow(c) <==> forall names :: !TooDeep(c, names))
  {
    hide Run, TooDeep, Vetted, Walk;
    if !c.flags.safe && !c.flags.noAutofs {
      forall names | TooDeep(c, names) ensures Vetted(c, names) {
        DeepIsWalked(c, names);
        WalkedIsVetted(c, names);
      }
    }
    if Shallow(c) {
      forall path ensures !Run(c, Init(c, path)).Aborted? {
        InitInv(c, path);
        ShallowNeverAborts(c, Init(c, path));
      }
    } else {
      var names :| Vetted(c, names) && TooDeep(c, names);
      DeepAborts(c, names);
    }
  }

  /** Where nothing lies too deep, the loop is plain pathname resolution. */
  lemma ShallowRefines(c: Config, path: string)
    requires c.Valid() && c.Plain() && !c.flags.step && Shallow(c)
    ensures SameVerdict(c,
      Resolve(Plainly(c), c.flags.nofollow, Start(Plainly(c)), path, CHASE_MAX - 1), Run(c, Init(c, path)))
  {
    hide Run, Resolve, Shallow;
    InitInv(c, path);
    ShallowNeverAborts(c, Init(c, path));
    ChaseRefinesResolution(c, path);
  }

  lemma DeepIsWalked(c: Config, names: seq<string>)
    requires TooDeep(c, names)
    ensures Walk(c.fs, c.base, names).Some?
  {
  }

  // ---------- a file system with such a directory ----------

  function LongName(): string { seq(NAME_MAX, _ => 'a') }

  /** Eighteen directories, each the only entry of the one before, all with a name of NAME_MAX bytes. */
  function Chain(): Fs
  {
    Fs(0, map i: Ino | 0 <= i < 18 :: ChainLink(i))
  }

  function ChainLink(i: Ino): Inode
  {
    Inode(0, false, Directory(
      if i == 17 then map[] else map[LongName() := i + 1],
      if i == 0 then 0 else i - 1))
  }

  lemma LongNameIsName()
    ensures IsName(LongName())
  {
    assert |LongName()| == 255;
    assert LongName()[0] == 'a';
  }

  lemma ChainChild(d: Ino, name: string)
    ensures Child(Chain(), d, name) == if d < 17 && name == LongName() then Some(d + 1) else None
    ensures IsDir(Chain(), d) <==> d < 18
    ensures d < 18 ==> Parent(Chain(), d) == if d == 0 then 0 else d - 1
  {
    hide LongName;
  }

  lemma ChainWellFormed()
    ensures WellFormed(Chain())
  {
    var fs := Chain();
    LongNameIsName();
    hide Chain, LongName, IsName, Child;
    ChainRoot();
    forall d: Ino, name: string ensures EntryOk(fs, d, name) { ChainChild(d, name); ChainChild(d + 1, name); }
    forall d: Ino ensures IsDir(fs, d) ==> IsDir(fs, Parent(fs, d)) {
      ChainChild(d, "");
      if IsDir(fs, d) { ChainChild(Parent(fs, d), ""); }
    }
    assert Ranked(fs, (i: Ino) => i) by {
      forall d: Ino, name: string
        ensures var c := Child(fs, d, name); c.Some? && IsDir(fs, c.value) ==> d < c.value
      {
        ChainChild(d, name);
      }
    }
  }

  lemma ChainRoot()
    ensures Chain().root == 0 && IsDir(Chain(), 0) && Parent(Chain(), 0) == 0
  {
  }

  function Repeat(n: nat): seq<string> { seq(n, _ => LongName()) }

  lemma {:induction false} ChainWalk(n: nat)
    requires n <= 17
    ensures Walk(Chain(), 0, Repeat(n)) == Some(n)
  {
    if n > 0 {
      hide Chain, Child, LongName;
      assert Repeat(n)[..n - 1] == Repeat(n - 1);
      ChainWalk(n - 1);
      ChainChild(n - 1, LongName());
    }
  }

  lemma {:induction false} RepeatLength(n: nat)
    requires n >= 1
    ensures |Joined(Repeat(n), "")| == 256 * n - 1
  {
    hide LongName;
    assert |LongName()| == 255 by { LongNameIsName(); LongNameLength(); }
    if n > 1 {
      assert Repeat(n)[1..] == Repeat(n - 1);
      RepeatLength(n - 1);
    }
  }

  lemma LongNameLength()
    ensures |LongName()| == 255
  {
  }

  /** All of it belongs to root, and nothing is an automount point. */
  lemma {:induction false} ChainVetted(flags: Flags, n: nat)
    requires n <= 17
    ensures Vetted(Config(Chain(), 0, flags), Repeat(n))
  {
    if n > 0 {
      ChainNode(n - 1);
      ChainNode(n);
      hide Chain, LongName, IsName;
      ChainVetted(flags, n - 1);
      assert Repeat(n)[..n - 1] == Repeat(n - 1);
      ChainWalk(n - 1);
      ChainWalk(n);
      LongNameIsName();
    }
  }

  lemma ChainNode(i: Ino)
    ensures Uid(Chain(), i) == 0 && !Node(Chain(), i).autofs
  {
    hide LongName;
  }

  /** A concrete file system and path on which the call aborts, whatever the flags. */
  lemma DeepTreeAborts(flags: Flags)
    ensures var c := Config(Chain(), 0, flags);
            c.Valid() && Run(c, Init(c, PathExtend(DonePath(c, Repeat(17)), ".."))) == Aborted
  {
    var c := Config(Chain(), 0, flags);
    ChainWellFormed();
    ChainRoot();
    ChainWalk(17);
    ChainChild(17, "");
    RepeatLength(16);
    ChainVetted(flags, 17);
    hide Chain, Run, Joined, Vetted;
    assert Repeat(17)[..16] == Repeat(16);
    assert TooDeep(c, Repeat(17));
    DeepAborts(c, Repeat(17));
  }
}
